/** `html_to_text` of read_email.py: a chain of regular-expression substitutions
    followed by entity unescaping and whitespace normalisation.

    Every regular expression the converter uses is one `Pattern`; `MatchAt`
    says how long the pattern's match starting at the front of a string is, and
    `Substitute` is `re.sub` with that pattern: it scans left to right, replaces
    each match, and resumes right after it. Case-insensitive patterns fold ASCII
    letters only. Entity unescaping is a library call and is a parameter. */
module Html {
  import opened Wrappers
  import opened Text

  datatype Pattern =
    | ScriptOrStyle      // `<script` or `<style` (any case), up to the next `>`, then the shortest
                         // run of anything up to the literal five characters `</\1>`
    | LineBreak          // `<br`, optional whitespace, optional `/`, then `>` (any case)
    | CiLiteral(lit: string)  // a fixed text, any case
    | AnyTag             // `<`, at least one character other than `>`, then `>`
    | LineEnd            // a CR LF pair, or a lone CR
    | NewlineRun         // three or more line feeds

  /** The text the script/style pattern ends on, as the source's raw string spells it. */
  const ScriptClose: string := "</\\1>"

  /** Number of leading characters of `s` equal to `c`. */
  function RunLen(s: string, c: char): (n: nat)
    ensures n <= |s|
    ensures forall i :: 0 <= i < n ==> s[i] == c
    ensures n < |s| ==> s[n] != c
    decreases |s|
  {
    if |s| > 0 && s[0] == c then 1 + RunLen(s[1..], c) else 0
  }

  /** Number of leading whitespace characters of `s`. */
  function SpaceRun(s: string): (n: nat)
    ensures n <= |s|
    ensures forall i :: 0 <= i < n ==> IsSpace(s[i])
    ensures n < |s| ==> !IsSpace(s[n])
    decreases |s|
  {
    if |s| > 0 && IsSpace(s[0]) then 1 + SpaceRun(s[1..]) else 0
  }

  /** First position at or after `from` where `c` occurs. */
  function FindChar(s: string, c: char, from: nat): (r: Option<nat>)
    ensures r.Some? ==> from <= r.value < |s| && s[r.value] == c
    ensures r.Some? ==> forall i :: from <= i < r.value ==> s[i] != c
    ensures r.None? ==> forall i :: from <= i < |s| ==> s[i] != c
    decreases |s| - from
  {
    if from >= |s| then None
    else if s[from] == c then Some(from)
    else FindChar(s, c, from + 1)
  }

  /** First position at or after `from` where `t` occurs. */
  function FindText(s: string, t: string, from: nat): (r: Option<nat>)
    requires |t| > 0
    ensures r.Some? ==> from <= r.value && OccursAt(s, t, r.value)
    ensures r.Some? ==> forall i :: from <= i < r.value ==> !OccursAt(s, t, i)
    ensures r.None? ==> forall i :: from <= i ==> !OccursAt(s, t, i)
    decreases |s| - from
  {
    if from + |t| > |s| then None
    else if s[from..from + |t|] == t then Some(from)
    else FindText(s, t, from + 1)
  }

  /** `t` occurs in `s` at position `i`. */
  predicate OccursAt(s: string, t: string, i: nat) {
    i + |t| <= |s| && s[i..i + |t|] == t
  }

  /** `s` starts with `t`, ignoring (ASCII) case. */
  predicate CiStartsWith(s: string, t: string) {
    |t| <= |s| && forall i :: 0 <= i < |t| ==> LowerChar(s[i]) == LowerChar(t[i])
  }

  /** Length of the match of `p` at the very front of `s`, if there is one. */
  function MatchAt(p: Pattern, s: string): (r: Option<nat>)
    ensures r.Some? ==> 0 < r.value <= |s|
  {
    match p
    case ScriptOrStyle =>
      if |s| == 0 || s[0] != '<' then None
      else
        var name :=
          if CiStartsWith(s[1..], "script") then 6
          else if CiStartsWith(s[1..], "style") then 5
          else 0;
        if name == 0 then None
        else
          (match FindChar(s, '>', 1 + name)
           case None => None
           case Some(gt) =>
             (match FindText(s, ScriptClose, gt + 1)
              case None => None
              case Some(close) => Some(close + |ScriptClose|)))
    case LineBreak =>
      if |s| < 3 || s[0] != '<' || LowerChar(s[1]) != 'b' || LowerChar(s[2]) != 'r' then None
      else
        var k := 3 + SpaceRun(s[3..]);
        if k < |s| && s[k] == '>' then Some(k + 1)
        else if k + 1 < |s| && s[k] == '/' && s[k + 1] == '>' then Some(k + 2)
        else None
    case CiLiteral(lit) =>
      if |lit| > 0 && CiStartsWith(s, lit) then Some(|lit|) else None
    case AnyTag =>
      if |s| == 0 || s[0] != '<' then None
      else
        (match FindChar(s, '>', 1)
         case Some(gt) => if gt >= 2 then Some(gt + 1) else None
         case None => None)
    case LineEnd =>
      if |s| == 0 || s[0] != '\r' then None
      else if |s| >= 2 && s[1] == '\n' then Some(2)
      else Some(1)
    case NewlineRun =>
      var n := RunLen(s, '\n');
      if n >= 3 then Some(n) else None
  }

  /** What each pattern's match looks like: the markup patterns match only at
      a `<`; the script/style match ends on the literal closing text; the
      line-break match ends on `>`; a literal matches, ignoring case, exactly
      its own length; the tag match is `<`, one or more characters other than
      `>`, then `>`, and it is missing at a `<` only when no such `>` follows;
      the line-ending match is a CR LF pair when there is one, else a lone CR. */
  lemma MatchShape(p: Pattern, s: string)
    ensures var r := MatchAt(p, s);
            && (r.Some? && (p.ScriptOrStyle? || p.LineBreak? || p.AnyTag?) ==> s[0] == '<')
            && (p.ScriptOrStyle? && r.Some? ==>
                  r.value >= |ScriptClose| && s[r.value - |ScriptClose|..r.value] == ScriptClose)
            && (p.LineBreak? && r.Some? ==> r.value >= 4 && s[r.value - 1] == '>')
            && (p.CiLiteral? ==> (r.Some? <==> p.lit != [] && CiStartsWith(s, p.lit)))
            && (p.CiLiteral? && r.Some? ==> r.value == |p.lit|)
            && (p.AnyTag? && r.Some? ==>
                  r.value >= 3 && s[r.value - 1] == '>' && forall i :: 1 <= i < r.value - 1 ==> s[i] != '>')
            && (p.AnyTag? && r.None? && |s| > 1 && s[0] == '<' && s[1] != '>' ==>
                  forall i :: 1 <= i < |s| ==> s[i] != '>')
            && (p.LineEnd? ==> (r.Some? <==> s != [] && s[0] == '\r'))
            && (p.LineEnd? && r.Some? ==> r.value == (if |s| >= 2 && s[1] == '\n' then 2 else 1))
  {
  }

  /** `re.sub(p, rep, s)`. Every match is at least one character long, so a
      replacement of at most one character never lengthens the text. */
  function Substitute(s: string, p: Pattern, rep: string): (r: string)
    ensures |rep| <= 1 ==> |r| <= |s|
    decreases |s|
  {
    if s == [] then []
    else
      match MatchAt(p, s)
      case Some(n) => rep + Substitute(s[n..], p, rep)
      case None => [s[0]] + Substitute(s[1..], p, rep)
  }

  /** `p` matches nowhere in `s`. */
  predicate NoMatch(p: Pattern, s: string) {
    forall i :: 0 <= i < |s| ==> MatchAt(p, s[i..]).None?
  }

  /** A substitution whose pattern matches nowhere leaves the text alone. */
  lemma {:induction false} SubstituteNoMatch(s: string, p: Pattern, rep: string)
    requires NoMatch(p, s)
    ensures Substitute(s, p, rep) == s
    decreases |s|
  {
    if s != [] {
      assert s[0..] == s;
      assert NoMatch(p, s[1..]) by {
        forall i | 0 <= i < |s[1..]| ensures MatchAt(p, s[1..][i..]).None? {
          assert s[1..][i..] == s[i + 1..];
        }
      }
      SubstituteNoMatch(s[1..], p, rep);
    }
  }

  /** One piece of a left-to-right scan: a character where the pattern does
      not match, copied as it is, or a whole match, replaced. */
  datatype Piece = Kept(c: char) | Replaced(text: string)

  /** The input text a piece covers. */
  function Covered(q: Piece): string {
    match q
    case Kept(c) => [c]
    case Replaced(t) => t
  }

  /** The input text a run of pieces covers, in order. */
  function Source(ps: seq<Piece>): string
    decreases |ps|
  {
    if ps == [] then [] else Covered(ps[0]) + Source(ps[1..])
  }

  /** The output of a run of pieces: kept characters as they are, each
      match replaced by `rep`. */
  function Render(ps: seq<Piece>, rep: string): string
    decreases |ps|
  {
    if ps == [] then []
    else (match ps[0] case Kept(c) => [c] case Replaced(_) => rep) + Render(ps[1..], rep)
  }

  /** `ps` is how `re.sub` reads the text `Source(ps)`: at each position, a
      match of `p` there is taken whole, and otherwise one character is
      kept and the scan moves on by one. */
  predicate Scanned(ps: seq<Piece>, p: Pattern)
    decreases |ps|
  {
    ps == [] ||
    ((match ps[0]
      case Kept(_) => MatchAt(p, Source(ps)).None?
      case Replaced(t) => MatchAt(p, Source(ps)) == Some(|t|))
     && Scanned(ps[1..], p))
  }

  /** The left-to-right scan of `s` for `p`. */
  function Scan(s: string, p: Pattern): (r: seq<Piece>)
    ensures Source(r) == s && Scanned(r, p)
    decreases |s|
  {
    if s == [] then []
    else
      match MatchAt(p, s)
      case Some(n) =>
        var r := [Replaced(s[..n])] + Scan(s[n..], p);
        assert r[1..] == Scan(s[n..], p);
        assert s == s[..n] + s[n..];
        r
      case None =>
        var r := [Kept(s[0])] + Scan(s[1..], p);
        assert r[1..] == Scan(s[1..], p);
        assert s == [s[0]] + s[1..];
        r
  }

  /** A text has only one such scan. */
  lemma {:induction false} ScanUnique(ps: seq<Piece>, qs: seq<Piece>, p: Pattern)
    requires Scanned(ps, p) && Scanned(qs, p) && Source(ps) == Source(qs)
    ensures ps == qs
    decreases |ps|
  {
    if ps == [] || qs == [] {
      SourceNonEmpty(ps, p);
      SourceNonEmpty(qs, p);
    } else {
      FirstPieceAgrees(ps, qs, p);
      var n := |Covered(ps[0])|;
      TailSource(ps, n);
      TailSource(qs, n);
      ScannedTail(ps, p);
      ScannedTail(qs, p);
      ScanUnique(ps[1..], qs[1..], p);
      SameFrontSameTail(ps, qs);
    }
  }

  /** The rest of a scan is a scan of the rest of the text. */
  lemma ScannedTail(ps: seq<Piece>, p: Pattern)
    requires ps != [] && Scanned(ps, p)
    ensures Scanned(ps[1..], p)
  {
  }

  /** Sequences with the same first element and the same rest are equal. */
  lemma SameFrontSameTail<T>(a: seq<T>, b: seq<T>)
    requires a != [] && b != [] && a[0] == b[0] && a[1..] == b[1..]
    ensures a == b
  {
    assert a == [a[0]] + a[1..];
    assert b == [b[0]] + b[1..];
  }

  /** Every piece of a scan covers at least one character. */
  lemma SourceNonEmpty(ps: seq<Piece>, p: Pattern)
    requires Scanned(ps, p)
    ensures ps != [] ==> Source(ps) != []
  {
    if ps != [] && ps[0].Replaced? {
      assert MatchAt(p, Source(ps)) == Some(|ps[0].text|);
    }
  }

  /** Two scans of one text read its front the same way. */
  lemma FirstPieceAgrees(ps: seq<Piece>, qs: seq<Piece>, p: Pattern)
    requires ps != [] && qs != [] && Scanned(ps, p) && Scanned(qs, p) && Source(ps) == Source(qs)
    ensures ps[0] == qs[0]
  {
    var s := Source(ps);
    match ps[0]
    case Kept(c) =>
      assert qs[0].Kept?;
      assert s[0] == c && s[0] == qs[0].c;
    case Replaced(t) =>
      assert qs[0].Replaced? && |qs[0].text| == |t|;
      assert s[..|t|] == t && s[..|t|] == qs[0].text;
  }

  /** What is left of the text after its first piece. */
  lemma TailSource(ps: seq<Piece>, n: nat)
    requires ps != [] && n == |Covered(ps[0])|
    ensures Source(ps[1..]) == Source(ps)[n..]
  {
    assert Source(ps) == Covered(ps[0]) + Source(ps[1..]);
  }

  /** The substitution is the scan, rendered: every piece the scan reads as
      a match becomes `rep` and every other character is copied. */
  lemma {:induction false} SubstituteFollowsScan(ps: seq<Piece>, p: Pattern, rep: string)
    requires Scanned(ps, p)
    ensures Substitute(Source(ps), p, rep) == Render(ps, rep)
    decreases |ps|
  {
    if ps != [] {
      var s := Source(ps);
      var rest := Source(ps[1..]);
      SubstituteFollowsScan(ps[1..], p, rep);
      match ps[0]
      case Kept(c) =>
        assert s[1..] == rest;
        SubstituteMiss(s, p, rep);
      case Replaced(t) =>
        assert s[|t|..] == rest;
        SubstituteHit(s, p, rep, |t|);
    }
  }

  /** Every character of a substitution's output comes from the input or the replacement. */
  lemma {:induction false} SubstituteChars(s: string, p: Pattern, rep: string, c: char)
    requires c in Substitute(s, p, rep)
    ensures c in s || c in rep
    decreases |s|
  {
    if s != [] {
      match MatchAt(p, s)
      case Some(n) =>
        if c !in rep {
          SubstituteChars(s[n..], p, rep, c);
          assert c in s by { var k :| n <= k < |s| && s[k] == c; }
        }
      case None =>
        if c != s[0] {
          SubstituteChars(s[1..], p, rep, c);
        }
    }
  }

  /** No character of `s` is a carriage return. */
  predicate NoCarriageReturn(s: string) {
    forall i :: 0 <= i < |s| ==> s[i] != '\r'
  }

  /** No three consecutive line feeds anywhere in `s`. */
  predicate NoTripleNewline(s: string) {
    forall i :: 0 <= i < |s| ==> RunLen(s[i..], '\n') <= 2
  }

  /** `s` neither starts nor ends with whitespace. */
  predicate Trimmed(s: string) {
    s == [] || (!IsSpace(s[0]) && !IsSpace(s[|s| - 1]))
  }

  /** After the line-ending pass no carriage return is left. */
  lemma {:induction false} LineEndRemovesCr(s: string)
    ensures NoCarriageReturn(Substitute(s, LineEnd, "\n"))
    decreases |s|
  {
    if s != [] {
      var out := Substitute(s, LineEnd, "\n");
      match MatchAt(LineEnd, s)
      case Some(n) =>
        LineEndRemovesCr(s[n..]);
        assert out == "\n" + Substitute(s[n..], LineEnd, "\n");
      case None =>
        LineEndRemovesCr(s[1..]);
        assert out == [s[0]] + Substitute(s[1..], LineEnd, "\n");
    }
  }

  /** The newline pass keeps a string free of carriage returns. */
  lemma NewlineRunKeepsNoCr(s: string)
    requires NoCarriageReturn(s)
    ensures NoCarriageReturn(Substitute(s, NewlineRun, "\n\n"))
  {
    var out := Substitute(s, NewlineRun, "\n\n");
    forall i | 0 <= i < |out| ensures out[i] != '\r' {
      if out[i] == '\r' {
        SubstituteChars(s, NewlineRun, "\n\n", '\r');
        assert false;
      }
    }
  }

  /** The run of line feeds at the front of the output is the input's, capped at two. */
  lemma {:induction false} NewlineRunLeading(s: string)
    ensures RunLen(Substitute(s, NewlineRun, "\n\n"), '\n') == if RunLen(s, '\n') <= 2 then RunLen(s, '\n') else 2
    decreases |s|
  {
    if s != [] {
      var n := RunLen(s, '\n');
      var rest := if n >= 3 then s[n..] else s[1..];
      var tail := Substitute(rest, NewlineRun, "\n\n");
      NewlineRunLeading(rest);
      if n >= 3 {
        assert RunLen(rest, '\n') == 0;
        var out := "\n\n" + tail;
        assert out[1..] == "\n" + tail;
        assert out[1..][1..] == tail;
      } else {
        assert s[0] == '\n' ==> RunLen(rest, '\n') == n - 1;
        assert ([s[0]] + tail)[1..] == tail;
      }
    }
  }

  /** After the newline pass no run of three line feeds is left. */
  lemma {:induction false} NewlineRunCollapses(s: string)
    ensures NoTripleNewline(Substitute(s, NewlineRun, "\n\n"))
    decreases |s|
  {
    if s != [] {
      var n := RunLen(s, '\n');
      var rest := if n >= 3 then s[n..] else s[1..];
      var tail := Substitute(rest, NewlineRun, "\n\n");
      var out := Substitute(s, NewlineRun, "\n\n");
      NewlineRunCollapses(rest);
      NewlineRunLeading(s);
      assert out[0..] == out;
      if n >= 3 {
        assert out == "\n\n" + tail;
        assert RunLen(rest, '\n') == 0;
        NewlineRunLeading(rest);
        assert out[1..] == "\n" + tail;
        assert out[1..][1..] == tail;
        assert out[2..] == tail;
        NoTripleFront(out, 2);
      } else {
        assert out == [s[0]] + tail;
        assert out[1..] == tail;
        NoTripleFront(out, 1);
      }
    }
  }

  /** No run of three line feeds starts in the first `k` positions or after them. */
  lemma NoTripleFront(out: string, k: nat)
    requires k <= |out| && NoTripleNewline(out[k..])
    requires forall i :: 0 <= i < k ==> RunLen(out[i..], '\n') <= 2
    ensures NoTripleNewline(out)
  {
    forall i | k <= i < |out| ensures RunLen(out[i..], '\n') <= 2 {
      assert out[i..] == out[k..][i - k..];
    }
  }

  /** A string with no run of three line feeds is unchanged by the newline pass. */
  lemma NewlineRunFixpoint(s: string)
    requires NoTripleNewline(s)
    ensures Substitute(s, NewlineRun, "\n\n") == s
  {
    SubstituteNoMatch(s, NewlineRun, "\n\n");
  }

  /** A string with no carriage return is unchanged by the line-ending pass. */
  lemma LineEndFixpoint(s: string)
    requires NoCarriageReturn(s)
    ensures Substitute(s, LineEnd, "\n") == s
  {
    SubstituteNoMatch(s, LineEnd, "\n");
  }

  /** Both properties survive taking a substring. */
  lemma SliceKeepsNormalForm(s: string, a: nat, b: nat)
    requires a <= b <= |s|
    requires NoCarriageReturn(s) && NoTripleNewline(s)
    ensures NoCarriageReturn(s[a..b]) && NoTripleNewline(s[a..b])
  {
    assert forall i :: 0 <= i < b - a ==> s[a..b][i] == s[a + i];
    forall i | 0 <= i < b - a ensures RunLen(s[a..b][i..], '\n') <= 2 {
      assert RunLen(s[a + i..], '\n') <= 2;
      SliceRunAt(s, a, b, i);
    }
  }

  /** The run of line feeds at one position of a substring is no longer than
      the run at the same place in the whole string. */
  lemma SliceRunAt(s: string, a: nat, b: nat, i: nat)
    requires a <= b <= |s| && i < b - a
    ensures RunLen(s[a..b][i..], '\n') <= RunLen(s[a + i..], '\n')
  {
    var j := a + i;
    assert s[a..b][i..] == s[j..][..b - j];
    RunLenPrefix(s[j..], b - j, '\n');
  }

  /** Cutting a string short never lengthens its leading run. */
  lemma {:induction false} RunLenPrefix(s: string, k: nat, c: char)
    requires k <= |s|
    ensures RunLen(s[..k], c) <= RunLen(s, c)
    decreases k
  {
    if k > 0 && s[0] == c {
      assert s[..k][1..] == s[1..][..k - 1];
      RunLenPrefix(s[1..], k - 1, c);
    }
  }

  /** The last three steps of `html_to_text`: line endings to `\n`, runs of
      three or more line feeds to two, then `strip()`. */
  function Normalize(s: string): (r: string)
    ensures NoCarriageReturn(r)
    ensures NoTripleNewline(r)
    ensures Trimmed(r)
  {
    var t1 := Substitute(s, LineEnd, "\n");
    var t2 := Substitute(t1, NewlineRun, "\n\n");
    LineEndRemovesCr(s);
    NewlineRunKeepsNoCr(t1);
    NewlineRunCollapses(t1);
    var r := Strip(t2);
    var a, b :| 0 <= a <= b <= |t2| && r == t2[a..b];
    SliceKeepsNormalForm(t2, a, b);
    r
  }

  /** Normalising changes whitespace only: the text is unchanged. */
  lemma NormalizeKeepsText(s: string)
    ensures NonSpace(Normalize(s)) == NonSpace(s)
  {
    var t1 := Substitute(s, LineEnd, "\n");
    var t2 := Substitute(t1, NewlineRun, "\n\n");
    WhitespacePassKeepsText(s, LineEnd, "\n");
    WhitespacePassKeepsText(t1, NewlineRun, "\n\n");
    StripKeepsText(t2);
  }

  /** The line-ending and newline-run passes, replacing with whitespace,
      change whitespace only. */
  lemma {:induction false} WhitespacePassKeepsText(s: string, p: Pattern, rep: string)
    requires p.LineEnd? || p.NewlineRun?
    requires forall i :: 0 <= i < |rep| ==> IsSpace(rep[i])
    ensures NonSpace(Substitute(s, p, rep)) == NonSpace(s)
    decreases |s|
  {
    if s != [] {
      match MatchAt(p, s)
      case Some(n) =>
        SubstituteHit(s, p, rep, n);
        WhitespacePassKeepsText(s[n..], p, rep);
        AllSpaceNoText(rep);
        NonSpaceAppend(rep, Substitute(s[n..], p, rep));
        WhitespaceMatchNoText(p, s);
      case None =>
        SubstituteMiss(s, p, rep);
        WhitespacePassKeepsText(s[1..], p, rep);
        NonSpaceAppend([s[0]], Substitute(s[1..], p, rep));
        NonSpaceAppend([s[0]], s[1..]);
        assert [s[0]] + s[1..] == s;
    }
  }

  /** What a line-ending or newline-run match covers is whitespace, so the
      text lies in the rest. */
  lemma WhitespaceMatchNoText(p: Pattern, s: string)
    requires (p.LineEnd? || p.NewlineRun?) && MatchAt(p, s).Some?
    ensures NonSpace(s) == NonSpace(s[MatchAt(p, s).value..])
  {
    var n := MatchAt(p, s).value;
    WhitespaceMatch(p, s);
    assert s == s[..n] + s[n..];
    NonSpaceAppend(s[..n], s[n..]);
    forall i | 0 <= i < n ensures IsSpace(s[..n][i]) {
      assert s[..n][i] == s[i];
    }
    AllSpaceNoText(s[..n]);
  }

  /** The line-ending and newline-run matches cover whitespace only. */
  lemma WhitespaceMatch(p: Pattern, s: string)
    requires (p.LineEnd? || p.NewlineRun?) && MatchAt(p, s).Some?
    ensures forall i :: 0 <= i < MatchAt(p, s).value ==> IsSpace(s[i])
  {
    MatchShape(p, s);
  }

  /** Normalising twice is normalising once. */
  lemma NormalizeIdempotent(s: string)
    ensures Normalize(Normalize(s)) == Normalize(s)
  {
    NormalFormFixed(Normalize(s));
  }

  /** A text already in normal form is left alone by normalisation. */
  lemma NormalFormFixed(t: string)
    requires NoCarriageReturn(t) && NoTripleNewline(t) && Trimmed(t)
    ensures Normalize(t) == t
  {
    LineEndFixpoint(t);
    NewlineRunFixpoint(t);
    StripKeepsTrimmed(t);
  }

  /** `html_to_text`: drop script/style blocks, turn `<br>`, `</p>`, `</div>`
      and `</li>` into line breaks, drop every other tag, unescape entities,
      then normalise whitespace. Empty input gives empty output. */
  function HtmlToText(html: string, unescape: string -> string): (r: string)
    ensures html == "" ==> r == ""
    ensures NoCarriageReturn(r)
    ensures NoTripleNewline(r)
    ensures Trimmed(r)
  {
    if html == "" then ""
    else Normalize(unescape(StripMarkup(html)))
  }

  /** The regular-expression passes of `html_to_text` that run before unescaping. */
  function StripMarkup(html: string): (r: string)
    ensures NoMatch(AnyTag, r)
  {
    var t1 := Substitute(html, ScriptOrStyle, "");
    var t2 := Substitute(t1, LineBreak, "\n");
    var t3 := Substitute(t2, CiLiteral("</p>"), "\n\n");
    var t4 := Substitute(t3, CiLiteral("</div>"), "\n");
    var t5 := Substitute(t4, CiLiteral("</li>"), "\n");
    TagStripLeavesNoTag(t5);
    Substitute(t5, AnyTag, "")
  }

  /** After the tag pass the tag pattern matches nowhere in the text. */
  lemma {:induction false} TagStripLeavesNoTag(s: string)
    ensures NoMatch(AnyTag, Substitute(s, AnyTag, ""))
    decreases |s|
  {
    if s != [] {
      match MatchAt(AnyTag, s)
      case Some(n) =>
        TagStripLeavesNoTag(s[n..]);
        assert Substitute(s, AnyTag, "") == Substitute(s[n..], AnyTag, "");
      case None =>
        var tail := Substitute(s[1..], AnyTag, "");
        TagStripLeavesNoTag(s[1..]);
        var out := [s[0]] + tail;
        forall i | 0 <= i < |out| ensures MatchAt(AnyTag, out[i..]).None? {
          if i > 0 {
            assert out[i..] == tail[i - 1..];
          } else if s[0] == '<' {
            assert out[0..] == out;
            if |s| > 1 && s[1] == '>' {
              assert MatchAt(AnyTag, s[1..]).None?;
              assert tail[0] == '>';
              assert out[1] == '>';
            } else {
              assert forall k :: 1 <= k < |s| ==> s[k] != '>';
              forall k | 1 <= k < |out| ensures out[k] != '>' {
                if out[k] == '>' {
                  assert out[k] in tail;
                  SubstituteChars(s[1..], AnyTag, "", '>');
                  assert false;
                }
              }
            }
          }
        }
    }
  }

  /** Any match of the script/style pattern contains a backslash: the closing
      text the source spells as `</\\1>` in a raw string is five literal characters. */
  lemma ScriptMatchHasBackslash(t: string)
    ensures MatchAt(ScriptOrStyle, t).Some? ==> '\\' in t
  {
    if |t| > 0 && t[0] == '<' {
      var name := if CiStartsWith(t[1..], "script") then 6 else if CiStartsWith(t[1..], "style") then 5 else 0;
      if name != 0 {
        var g := FindChar(t, '>', 1 + name);
        if g.Some? {
          var f := FindText(t, ScriptClose, g.value + 1);
          if f.Some? {
            assert t[f.value..f.value + 5][2] == '\\';
            assert t[f.value + 2] == '\\';
          }
        }
      }
    }
  }

  /** As written, the script/style step removes nothing from backslash-free
      HTML: the bodies of `<script>` and `<style>` elements are kept. */
  lemma ScriptStepKeepsBackslashFreeText(s: string)
    requires forall i :: 0 <= i < |s| ==> s[i] != '\\'
    ensures Substitute(s, ScriptOrStyle, "") == s
  {
    forall i | 0 <= i < |s| ensures MatchAt(ScriptOrStyle, s[i..]).None? {
      ScriptMatchHasBackslash(s[i..]);
      BackslashFreeSuffix(s, i);
    }
    SubstituteNoMatch(s, ScriptOrStyle, "");
  }

  lemma BackslashFreeSuffix(s: string, i: nat)
    requires i <= |s| && forall k :: 0 <= k < |s| ==> s[k] != '\\'
    ensures '\\' !in s[i..]
  {
    assert forall j :: 0 <= j < |s| - i ==> s[i..][j] == s[i + j];
  }

  /** Entities are decoded after the tags are gone, so an escaped tag comes
      out as a tag: with an unescaper that decodes `&lt;b&gt;` to `<b>`, the
      converted text of `&lt;b&gt;` is itself matched by the tag pattern. */
  lemma UnescapeCanReintroduceTag(unescape: string -> string)
    requires unescape("&lt;b&gt;") == "<b>"
    ensures MatchAt(AnyTag, HtmlToText("&lt;b&gt;", unescape)).Some?
  {
    EscapedBoldTag();
    MarkupFreeUnchanged("&lt;b&gt;");
    BoldTagIsNormal();
    NormalFormFixed("<b>");
    BoldTagMatches();
  }

  lemma EscapedBoldTag()
    ensures "&lt;b&gt;" != "" && '<' !in "&lt;b&gt;"
  {
    var t := "&lt;b&gt;";
    assert t[0] == '&' && t[1] == 'l' && t[2] == 't' && t[3] == ';' && t[4] == 'b';
    assert t[5] == '&' && t[6] == 'g' && t[7] == 't' && t[8] == ';';
  }

  /** Text without a `<` goes through the markup passes unchanged: every one
      of those patterns needs a `<` to match. */
  lemma MarkupFreeUnchanged(s: string)
    requires '<' !in s
    ensures StripMarkup(s) == s
  {
    PassKeeps(s, ScriptOrStyle, "");
    PassKeeps(s, LineBreak, "\n");
    PassKeeps(s, CiLiteral("</p>"), "\n\n");
    PassKeeps(s, CiLiteral("</div>"), "\n");
    PassKeeps(s, CiLiteral("</li>"), "\n");
    PassKeeps(s, AnyTag, "");
  }

  /** The patterns of the markup passes: each of them matches only at a `<`. */
  predicate MarkupPattern(p: Pattern) {
    p.ScriptOrStyle? || p.LineBreak? || p.AnyTag? || (p.CiLiteral? && p.lit != [] && p.lit[0] == '<')
  }

  /** A markup pattern does not match at a character other than `<`. */
  lemma NoMatchOffAngle(p: Pattern, s: string)
    requires MarkupPattern(p) && s != [] && s[0] != '<'
    ensures MatchAt(p, s).None?
  {
    assert LowerChar(s[0]) != '<';
    MatchShape(p, s);
  }

  /** A pattern that can only match at a `<` matches nowhere in a text without one. */
  lemma NoAngleNoMatch(s: string, p: Pattern)
    requires '<' !in s && MarkupPattern(p)
    ensures NoMatch(p, s)
  {
    forall i | 0 <= i < |s| ensures MatchAt(p, s[i..]).None? {
      assert s[i..][0] == s[i];
      NoMatchOffAngle(p, s[i..]);
    }
  }

  /** A markup pass leaves text without a `<` unchanged. */
  lemma PassKeeps(s: string, p: Pattern, rep: string)
    requires '<' !in s && MarkupPattern(p)
    ensures Substitute(s, p, rep) == s
  {
    NoAngleNoMatch(s, p);
    SubstituteNoMatch(s, p, rep);
  }

  /** A markup pass copies a `<`-free front of the text through unchanged. */
  lemma {:induction false} SubstituteSkipsText(a: string, t: string, p: Pattern, rep: string)
    requires '<' !in a && MarkupPattern(p)
    ensures Substitute(a + t, p, rep) == a + Substitute(t, p, rep)
    decreases |a|
  {
    if a == [] {
      assert a + t == t;
    } else {
      SubstituteSkipsText(a[1..], t, p, rep);
      SkipOne(a, t, p, rep);
      ConsConcat(a, Substitute(t, p, rep));
    }
  }

  /** One step of `SubstituteSkipsText`: a first character other than `<`
      is copied, and the pass goes on with the rest. */
  lemma SkipOne(a: string, t: string, p: Pattern, rep: string)
    requires a != [] && a[0] != '<' && MarkupPattern(p)
    ensures Substitute(a + t, p, rep) == [a[0]] + Substitute(a[1..] + t, p, rep)
  {
    var s := a + t;
    assert s[0] == a[0] && s[1..] == a[1..] + t;
    NoMatchOffAngle(p, s);
    SubstituteMiss(s, p, rep);
  }

  /** Putting a sequence's first element back in front of the rest. */
  lemma ConsConcat<T>(a: seq<T>, y: seq<T>)
    requires a != []
    ensures [a[0]] + (a[1..] + y) == a + y
  {
    assert a == [a[0]] + a[1..];
  }

  /** Where the pattern matches `n` characters, they are replaced. */
  lemma SubstituteHit(s: string, p: Pattern, rep: string, n: nat)
    requires s != [] && MatchAt(p, s) == Some(n)
    ensures Substitute(s, p, rep) == rep + Substitute(s[n..], p, rep)
  {
  }

  /** Where the pattern does not match, the first character is copied. */
  lemma SubstituteMiss(s: string, p: Pattern, rep: string)
    requires s != [] && MatchAt(p, s).None?
    ensures Substitute(s, p, rep) == [s[0]] + Substitute(s[1..], p, rep)
  {
  }

  /** In `a + m + b`, where `m` is the only place holding a `<` and holds it
      only at its front, a markup pass that finds nothing at `m` leaves the
      text alone. */
  lemma PassMisses(a: string, m: string, b: string, p: Pattern, rep: string)
    requires MarkupPattern(p) && '<' !in a && '<' !in b && m != [] && '<' !in m[1..]
    requires MatchAt(p, m + b).None?
    ensures Substitute(a + m + b, p, rep) == a + m + b
  {
    assert a + m + b == a + (m + b);
    SubstituteSkipsText(a, m + b, p, rep);
    MissAtFront(m, b, p, rep);
  }

  /** The front part of `PassMisses`, with nothing before `m`. */
  lemma MissAtFront(m: string, b: string, p: Pattern, rep: string)
    requires MarkupPattern(p) && '<' !in b && m != [] && '<' !in m[1..]
    requires MatchAt(p, m + b).None?
    ensures Substitute(m + b, p, rep) == m + b
  {
    var u := m + b;
    SubstituteMiss(u, p, rep);
    assert u[1..] == m[1..] + b;
    assert '<' !in u[1..];
    PassKeeps(u[1..], p, rep);
    assert [u[0]] + u[1..] == u;
  }

  /** In the same setting, a markup pass whose match at `m` is exactly `m`
      replaces just that. */
  lemma PassReplaces(a: string, m: string, b: string, p: Pattern, rep: string)
    requires MarkupPattern(p) && '<' !in a && '<' !in b && m != []
    requires MatchAt(p, m + b) == Some(|m|)
    ensures Substitute(a + m + b, p, rep) == a + rep + b
  {
    assert a + m + b == a + (m + b);
    SubstituteSkipsText(a, m + b, p, rep);
    HitAtFront(m, b, p, rep);
  }

  /** The front part of `PassReplaces`, with nothing before `m`. */
  lemma HitAtFront(m: string, b: string, p: Pattern, rep: string)
    requires MarkupPattern(p) && '<' !in b && m != []
    requires MatchAt(p, m + b) == Some(|m|)
    ensures Substitute(m + b, p, rep) == rep + b
  {
    var u := m + b;
    SubstituteHit(u, p, rep, |m|);
    assert u[|m|..] == b;
    PassKeeps(b, p, rep);
  }

  /** Texts equal ignoring case agree character by lowered character. */
  lemma CiEqChars(m: string, lit: string)
    requires CiEq(m, lit)
    ensures |m| == |lit| && forall k :: 0 <= k < |m| ==> LowerChar(m[k]) == LowerChar(lit[k])
  {
    CiEqSameLength(m, lit);
    forall k | 0 <= k < |m| ensures LowerChar(m[k]) == LowerChar(lit[k]) {
      assert Lower(m)[k] == Lower(lit)[k];
    }
  }

  /** A text equal, ignoring case, to a tag that opens with its only `<`
      also opens with its only `<`. */
  lemma CiEqTag(m: string, lit: string)
    requires CiEq(m, lit) && lit != [] && lit[0] == '<' && '<' !in lit[1..]
    ensures m != [] && m[0] == '<' && '<' !in m[1..]
  {
    CiEqChars(m, lit);
    forall k | 1 <= k < |m| ensures m[k] != '<' {
      assert lit[1..][k - 1] == lit[k];
    }
  }

  /** `s` does not start with `t`, ignoring case, when the two differ,
      ignoring case, at position `k`. */
  lemma CiDiffersAt(s: string, t: string, k: nat)
    requires k < |t| && k < |s| && LowerChar(s[k]) != LowerChar(t[k])
    ensures !CiStartsWith(s, t)
  {
  }

  /** A closing tag such as `</p>` is no script/style block and no line break. */
  lemma ClosingTagSkipped(u: string)
    requires |u| >= 2 && u[0] == '<' && u[1] == '/'
    ensures MatchAt(ScriptOrStyle, u).None? && MatchAt(LineBreak, u).None?
  {
    CiDiffersAt(u[1..], "script", 0);
    CiDiffersAt(u[1..], "style", 0);
  }

  /** `m` matches the literal pass for `lit` wherever it stands. */
  lemma LiteralMatches(m: string, b: string, lit: string)
    requires CiEq(m, lit) && lit != []
    ensures MatchAt(CiLiteral(lit), m + b) == Some(|m|)
  {
    CiEqChars(m, lit);
    forall i | 0 <= i < |lit| ensures LowerChar((m + b)[i]) == LowerChar(lit[i]) {
      assert (m + b)[i] == m[i];
    }
  }

  /** A `</p>`, in any case, between texts without markup becomes a blank
      line and nothing else changes. */
  lemma StripParagraphEnd(a: string, m: string, b: string)
    requires '<' !in a && '<' !in b && CiEq(m, "</p>")
    ensures StripMarkup(a + m + b) == a + "\n\n" + b
  {
    CiEqChars(m, "</p>");
    CiEqTag(m, "</p>");
    ClosingTagSkipped(m + b);
    PassMisses(a, m, b, ScriptOrStyle, "");
    PassMisses(a, m, b, LineBreak, "\n");
    LiteralMatches(m, b, "</p>");
    PassReplaces(a, m, b, CiLiteral("</p>"), "\n\n");
    AfterTagPass(a, "\n\n", b);
  }

  /** A `</div>`, in any case, between texts without markup becomes a line
      break and nothing else changes. */
  lemma StripDivisionEnd(a: string, m: string, b: string)
    requires '<' !in a && '<' !in b && CiEq(m, "</div>")
    ensures StripMarkup(a + m + b) == a + "\n" + b
  {
    CiEqChars(m, "</div>");
    CiEqTag(m, "</div>");
    var u := m + b;
    ClosingTagSkipped(u);
    PassMisses(a, m, b, ScriptOrStyle, "");
    PassMisses(a, m, b, LineBreak, "\n");
    CiDiffersAt(u, "</p>", 2);
    PassMisses(a, m, b, CiLiteral("</p>"), "\n\n");
    LiteralMatches(m, b, "</div>");
    PassReplaces(a, m, b, CiLiteral("</div>"), "\n");
    AfterTagPass(a, "\n", b);
  }

  /** A `</li>`, in any case, between texts without markup becomes a line
      break and nothing else changes. */
  lemma StripItemEnd(a: string, m: string, b: string)
    requires '<' !in a && '<' !in b && CiEq(m, "</li>")
    ensures StripMarkup(a + m + b) == a + "\n" + b
  {
    CiEqChars(m, "</li>");
    CiEqTag(m, "</li>");
    var u := m + b;
    ClosingTagSkipped(u);
    PassMisses(a, m, b, ScriptOrStyle, "");
    PassMisses(a, m, b, LineBreak, "\n");
    CiDiffersAt(u, "</p>", 2);
    PassMisses(a, m, b, CiLiteral("</p>"), "\n\n");
    CiDiffersAt(u, "</div>", 2);
    PassMisses(a, m, b, CiLiteral("</div>"), "\n");
    LiteralMatches(m, b, "</li>");
    PassReplaces(a, m, b, CiLiteral("</li>"), "\n");
    AfterTagPass(a, "\n", b);
  }

  /** A `<br>` or `<br/>`, in any case, between texts without markup becomes
      a line break and nothing else changes. */
  lemma StripLineBreak(a: string, m: string, b: string)
    requires '<' !in a && '<' !in b && (CiEq(m, "<br>") || CiEq(m, "<br/>"))
    ensures StripMarkup(a + m + b) == a + "\n" + b
  {
    var lit := if CiEq(m, "<br>") then "<br>" else "<br/>";
    CiEqChars(m, lit);
    CiEqTag(m, lit);
    var u := m + b;
    CiDiffersAt(u[1..], "script", 0);
    CiDiffersAt(u[1..], "style", 0);
    PassMisses(a, m, b, ScriptOrStyle, "");
    BreakMatches(u, |m|);
    PassReplaces(a, m, b, LineBreak, "\n");
    AfterTagPass(a, "\n", b);
  }

  /** The line-break pattern at `<br>` or `<br/>` matches exactly that tag. */
  lemma BreakMatches(u: string, n: nat)
    requires n == 4 || n == 5
    requires n <= |u| && u[0] == '<' && LowerChar(u[1]) == 'b' && LowerChar(u[2]) == 'r'
    requires u[n - 1] == '>' && (n == 5 ==> u[3] == '/')
    ensures MatchAt(LineBreak, u) == Some(n)
  {
    assert u[3..][0] == u[3] && !IsSpace(u[3]);
    assert SpaceRun(u[3..]) == 0;
  }

  /** A `<script>` or `<style>` block whose body holds no `<`, ended by the
      pattern's closing text, is dropped together with its body from between
      texts without markup, and nothing else changes. */
  lemma StripScriptBlock(a: string, name: string, x: string, b: string)
    requires name == "script" || name == "style"
    requires '<' !in a && '<' !in x && '<' !in b
    ensures StripMarkup(a + ("<" + name + ">" + x + ScriptClose) + b) == a + b
  {
    ScriptBlockMatches(name, x, b);
    StripBlockAt(a, "<" + name + ">" + x + ScriptClose, b);
  }

  /** A script/style match that is exactly `m`, between texts without `<`,
      is removed and nothing else changes. */
  lemma StripBlockAt(a: string, m: string, b: string)
    requires '<' !in a && '<' !in b && m != []
    requires MatchAt(ScriptOrStyle, m + b) == Some(|m|)
    ensures StripMarkup(a + m + b) == a + b
  {
    PassReplaces(a, m, b, ScriptOrStyle, "");
    assert a + "" + b == a + b;
    StripAfterScriptPass(a + m + b);
  }

  /** When the script/style pass leaves no `<`, the later passes change nothing. */
  lemma StripAfterScriptPass(html: string)
    requires '<' !in Substitute(html, ScriptOrStyle, "")
    ensures StripMarkup(html) == Substitute(html, ScriptOrStyle, "")
  {
    var t := Substitute(html, ScriptOrStyle, "");
    PassKeeps(t, LineBreak, "\n");
    PassKeeps(t, CiLiteral("</p>"), "\n\n");
    PassKeeps(t, CiLiteral("</div>"), "\n");
    PassKeeps(t, CiLiteral("</li>"), "\n");
    PassKeeps(t, AnyTag, "");
  }

  /** The script/style pattern at such a block matches exactly the block. */
  lemma ScriptBlockMatches(name: string, x: string, b: string)
    requires name == "script" || name == "style"
    requires '<' !in x
    ensures MatchAt(ScriptOrStyle, "<" + name + ">" + x + ScriptClose + b)
            == Some(|"<" + name + ">" + x + ScriptClose|)
  {
    var u := "<" + name + ">" + x + ScriptClose + b;
    var close := |name| + 2 + |x|;
    ScriptBlockLayout(name, x, b);
    FindTextHere(u, ScriptClose, |name| + 2, close);
    ScriptNameMatches(name, u[1..]);
    FindCharHere(u, '>', |name| + 1);
    ScriptMatchFrom(u, name, close);
  }

  /** Where the parts of a script/style block sit in the text. */
  lemma ScriptBlockLayout(name: string, x: string, b: string)
    requires '<' !in x
    ensures var u := "<" + name + ">" + x + ScriptClose + b;
            var close := |name| + 2 + |x|;
            && u[0] == '<' && u[1..][..|name|] == name && u[|name| + 1] == '>'
            && OccursAt(u, ScriptClose, close)
            && forall i :: |name| + 2 <= i < close ==> u[i] != '<'
  {
    var u := "<" + name + ">" + x + ScriptClose + b;
    var close := |name| + 2 + |x|;
    assert u[1..][..|name|] == name;
    assert u[close..close + |ScriptClose|] == ScriptClose;
    forall i | |name| + 2 <= i < close ensures u[i] != '<' {
      assert u[i] == x[i - |name| - 2];
    }
  }

  /** The script/style match at `<`, a name, `>`, found from where the
      closing text first occurs after that. */
  lemma ScriptMatchFrom(u: string, name: string, close: nat)
    requires name == "script" || name == "style"
    requires |u| > |name| + 1 && u[0] == '<' && FindChar(u, '>', |name| + 1) == Some(|name| + 1)
    requires CiStartsWith(u[1..], name) && (name == "style" ==> !CiStartsWith(u[1..], "script"))
    requires FindText(u, ScriptClose, |name| + 2) == Some(close)
    ensures MatchAt(ScriptOrStyle, u) == Some(close + |ScriptClose|)
  {
  }

  /** Which of the two names the script/style pattern sees after the `<`. */
  lemma ScriptNameMatches(name: string, v: string)
    requires name == "script" || name == "style"
    requires |name| < |v| && v[..|name|] == name && v[|name|] == '>'
    ensures name == "script" ==> CiStartsWith(v, "script")
    ensures name == "style" ==> !CiStartsWith(v, "script") && CiStartsWith(v, "style")
  {
    forall i | 0 <= i < |name| ensures v[i] == name[i] {
      assert v[..|name|][i] == v[i];
    }
    if name == "style" {
      CiDiffersAt(v, "script", 1);
    }
  }

  /** A character found right at the starting position is the first one. */
  lemma FindCharHere(s: string, c: char, from: nat)
    requires from < |s| && s[from] == c
    ensures FindChar(s, c, from) == Some(from)
  {
  }

  /** A character found at `k`, with none of it from `from` on before `k`,
      is the first one. */
  lemma FindCharAt(s: string, c: char, from: nat, k: nat)
    requires from <= k < |s| && s[k] == c
    requires forall i :: from <= i < k ==> s[i] != c
    ensures FindChar(s, c, from) == Some(k)
  {
  }

  /** The first occurrence of a text starting with `<`, searched from a
      point after which no `<` comes before `k`, is the one at `k`. */
  lemma FindTextHere(s: string, t: string, from: nat, k: nat)
    requires t != [] && t[0] == '<' && from <= k && OccursAt(s, t, k)
    requires forall i :: from <= i < k ==> s[i] != '<'
    ensures FindText(s, t, from) == Some(k)
  {
    forall i | from <= i < k ensures !OccursAt(s, t, i) {
      if i + |t| <= |s| {
        assert s[i..i + |t|][0] == s[i];
      }
    }
  }

  /** Any other tag `<x>`, where `x` holds no `<` or `>`, does not start with
      `/`, and is not a script, style or line-break tag, is dropped from
      between texts without markup by the tag pass, and nothing else changes. */
  lemma StripOtherTag(a: string, x: string, b: string)
    requires '<' !in a && '<' !in b && '<' !in x && '>' !in x && x != [] && x[0] != '/'
    requires !CiStartsWith(x, "script") && !CiStartsWith(x, "style") && !CiStartsWith(x, "br")
    ensures StripMarkup(a + ("<" + x + ">") + b) == a + b
  {
    var m := "<" + x + ">";
    var u := m + b;
    OtherTagSkipped(x, b);
    assert m[1..] == x + ">";
    PassMisses(a, m, b, ScriptOrStyle, "");
    PassMisses(a, m, b, LineBreak, "\n");
    PassMisses(a, m, b, CiLiteral("</p>"), "\n\n");
    PassMisses(a, m, b, CiLiteral("</div>"), "\n");
    PassMisses(a, m, b, CiLiteral("</li>"), "\n");
    TagPassDropsTag(a, x, b);
    PassKeeps(b, AnyTag, "");
  }

  /** The passes before the tag pass find nothing at such a tag. */
  lemma OtherTagSkipped(x: string, b: string)
    requires '>' !in x && x != [] && x[0] != '/'
    requires !CiStartsWith(x, "script") && !CiStartsWith(x, "style") && !CiStartsWith(x, "br")
    ensures var u := "<" + x + ">" + b;
            && MatchAt(ScriptOrStyle, u).None? && MatchAt(LineBreak, u).None?
            && MatchAt(CiLiteral("</p>"), u).None? && MatchAt(CiLiteral("</div>"), u).None?
            && MatchAt(CiLiteral("</li>"), u).None?
  {
    var u := "<" + x + ">" + b;
    var v := x + (">" + b);
    assert u[1..] == v && u[1] == x[0];
    NotCiPrefix(x, ">" + b, "script");
    NotCiPrefix(x, ">" + b, "style");
    NotCiPrefix(x, ">" + b, "br");
    CiDiffersAt(u, "</p>", 1);
    CiDiffersAt(u, "</div>", 1);
    CiDiffersAt(u, "</li>", 1);
  }

  /** A text that does not start with a `>`-free word `lit` ignoring case
      still does not once a `>` and more text follow it. */
  lemma NotCiPrefix(x: string, rest: string, lit: string)
    requires !CiStartsWith(x, lit) && '>' !in lit && rest != [] && rest[0] == '>'
    ensures !CiStartsWith(x + rest, lit)
  {
    var v := x + rest;
    if |lit| <= |x| {
      assert forall i :: 0 <= i < |lit| ==> v[i] == x[i];
    } else if |x| < |v| {
      assert v[|x|] == '>' && lit[|x|] != '>';
      CiDiffersAt(v, lit, |x|);
    }
  }

  /** The tag pass removes a tag `<x>` whose inside holds no `>`, after
      copying the text before it, which holds no `<`. */
  lemma TagPassDropsTag(a: string, x: string, t: string)
    requires '<' !in a && x != [] && '>' !in x
    ensures Substitute(a + ("<" + x + ">") + t, AnyTag, "") == a + Substitute(t, AnyTag, "")
  {
    var m := "<" + x + ">";
    assert a + m + t == a + (m + t);
    SubstituteSkipsText(a, m + t, AnyTag, "");
    TagAtFront(x, t);
  }

  /** The front part of `TagPassDropsTag`, with nothing before the tag. */
  lemma TagAtFront(x: string, t: string)
    requires x != [] && '>' !in x
    ensures Substitute("<" + x + ">" + t, AnyTag, "") == Substitute(t, AnyTag, "")
  {
    var u := "<" + x + ">" + t;
    TagMatches(x, t);
    SubstituteHit(u, AnyTag, "", |x| + 2);
    assert u[|x| + 2..] == t;
  }

  /** The tag pattern at `<x>`, with no `>` inside `x`, matches exactly that tag. */
  lemma TagMatches(x: string, t: string)
    requires x != [] && '>' !in x
    ensures MatchAt(AnyTag, "<" + x + ">" + t) == Some(|x| + 2)
  {
    var u := "<" + x + ">" + t;
    assert u[0] == '<' && u[|x| + 1] == '>';
    forall i | 1 <= i < |x| + 1 ensures u[i] != '>' {
      assert u[i] == x[i - 1];
    }
    FindCharAt(u, '>', 1, |x| + 1);
  }

  /** Once the one tag is replaced, the remaining literal and tag passes
      leave the text alone. */
  lemma AfterTagPass(a: string, rep: string, b: string)
    requires '<' !in a && '<' !in b && '<' !in rep
    ensures var t := a + rep + b;
            && Substitute(t, CiLiteral("</p>"), "\n\n") == t
            && Substitute(t, CiLiteral("</div>"), "\n") == t
            && Substitute(t, CiLiteral("</li>"), "\n") == t
            && Substitute(t, AnyTag, "") == t
  {
    var t := a + rep + b;
    PassKeeps(t, CiLiteral("</p>"), "\n\n");
    PassKeeps(t, CiLiteral("</div>"), "\n");
    PassKeeps(t, CiLiteral("</li>"), "\n");
    PassKeeps(t, AnyTag, "");
  }

  lemma BoldTagMatches()
    ensures MatchAt(AnyTag, "<b>") == Some(3)
  {
    var t := "<b>";
    assert t[0] == '<' && t[1] == 'b' && t[2] == '>';
    assert FindChar(t, '>', 1) == Some(2);
  }

  lemma BoldTagIsNormal()
    ensures NoCarriageReturn("<b>") && NoTripleNewline("<b>") && Trimmed("<b>")
  {
    var t := "<b>";
    assert t[0] == '<' && t[1] == 'b' && t[2] == '>';
    assert RunLen(t, '\n') == 0;
    forall i | 0 <= i < |t| ensures RunLen(t[i..], '\n') <= 2 {
      if i > 0 {
        assert |t[i..]| <= 2;
      }
    }
  }
}
