/** The content extractor of read_email.py (`get_email_content` without the
    network fetch): a depth-first walk over the message's MIME part tree
    (multipart bodies as in section 5.1 of RFC 2046) that collects the decoded
    `text/plain` and `text/html` leaves, then prefers plain text, falls back to
    converted HTML, and finally to the top-level body. */
module Mime {
  import opened Wrappers
  import opened Text
  import Html

  /** One node of a message payload: its media type, its body data (base64url
      text, `""` when the body carries none) and its sub-parts. */
  datatype Part = Part(mimeType: string, data: string, parts: seq<Part>)

  /** The library calls the extractor relies on: base64url decoding followed by
      UTF-8 decoding (`None` when it raises), and HTML entity unescaping. */
  datatype Codecs = Codecs(decode: string -> Option<string>, unescape: string -> string)

  /** The texts collected from a tree, in collection order. */
  datatype Texts = Texts(plain: seq<string>, html: seq<string>)

  function Concat(a: Texts, b: Texts): Texts {
    Texts(a.plain + b.plain, a.html + b.html)
  }

  /** `decode_part_data`: the decoded text, or `""` when decoding raises. */
  function DecodePart(data: string, c: Codecs): (r: string)
    ensures c.decode(data) == Some(r) || (c.decode(data).None? && r == "")
  {
    match c.decode(data)
    case Some(t) => t
    case None => ""
  }

  /** A part whose own body is collected as plain text. */
  predicate IsPlain(p: Part) {
    p.data != "" && p.mimeType != "" && StartsWith(p.mimeType, "text/plain")
  }

  /** A part whose own body is collected as HTML. */
  predicate IsHtml(p: Part) {
    p.data != "" && p.mimeType != "" && !StartsWith(p.mimeType, "text/plain")
    && StartsWith(p.mimeType, "text/html")
  }

  /** What a part's own body adds to the collection. */
  function Own(p: Part, c: Codecs): Texts {
    if IsPlain(p) then Texts([DecodePart(p.data, c)], [])
    else if IsHtml(p) then Texts([], [DecodePart(p.data, c)])
    else Texts([], [])
  }

  /** `collect_texts`: the sub-parts first, in order, then the part's own
      body. Each part of the tree contributes at most one text. */
  function Collect(p: Part, c: Codecs): (r: Texts)
    ensures |r.plain| + |r.html| <= |PostOrder(p)|
    decreases p, 1
  {
    Concat(CollectChildren(p, 0, c), Own(p, c))
  }

  /** The collection of the sub-parts `p.parts[i..]`, in order. */
  function CollectChildren(p: Part, i: nat, c: Codecs): (r: Texts)
    requires i <= |p.parts|
    ensures |r.plain| + |r.html| <= |PostOrderChildren(p, i)|
    decreases p, 0, |p.parts| - i
  {
    if i == |p.parts| then Texts([], [])
    else Concat(Collect(p.parts[i], c), CollectChildren(p, i + 1, c))
  }

  /** All parts of the tree, each after all of its sub-parts. */
  function PostOrder(p: Part): (r: seq<Part>)
    ensures |r| > 0 && r[|r| - 1] == p
    decreases p, 1
  {
    PostOrderChildren(p, 0) + [p]
  }

  function PostOrderChildren(p: Part, i: nat): seq<Part>
    requires i <= |p.parts|
    decreases p, 0, |p.parts| - i
  {
    if i == |p.parts| then [] else PostOrder(p.parts[i]) + PostOrderChildren(p, i + 1)
  }

  /** The decoded bodies of the plain-text parts of a flat list of parts. */
  function PlainOf(ps: seq<Part>, c: Codecs): seq<string> {
    if ps == [] then []
    else (if IsPlain(ps[0]) then [DecodePart(ps[0].data, c)] else []) + PlainOf(ps[1..], c)
  }

  /** The decoded bodies of the HTML parts of a flat list of parts. */
  function HtmlOf(ps: seq<Part>, c: Codecs): seq<string> {
    if ps == [] then []
    else (if IsHtml(ps[0]) then [DecodePart(ps[0].data, c)] else []) + HtmlOf(ps[1..], c)
  }

  lemma {:induction false} OfAppend(a: seq<Part>, b: seq<Part>, c: Codecs)
    ensures PlainOf(a + b, c) == PlainOf(a, c) + PlainOf(b, c)
    ensures HtmlOf(a + b, c) == HtmlOf(a, c) + HtmlOf(b, c)
    decreases |a|
  {
    if a != [] {
      assert (a + b)[1..] == a[1..] + b;
      OfAppend(a[1..], b, c);
    } else {
      assert a + b == b;
    }
  }

  /** The recursive collection is the plain and HTML filter of a post-order
      listing of the tree: children before their parent, siblings in order. */
  lemma {:induction false} CollectIsPostOrder(p: Part, c: Codecs)
    ensures Collect(p, c) == Texts(PlainOf(PostOrder(p), c), HtmlOf(PostOrder(p), c))
    decreases p, 1
  {
    ChildrenArePostOrder(p, 0, c);
    OfAppend(PostOrderChildren(p, 0), [p], c);
    assert [p][1..] == [];
  }

  lemma {:induction false} ChildrenArePostOrder(p: Part, i: nat, c: Codecs)
    requires i <= |p.parts|
    ensures CollectChildren(p, i, c)
         == Texts(PlainOf(PostOrderChildren(p, i), c), HtmlOf(PostOrderChildren(p, i), c))
    decreases p, 0, |p.parts| - i
  {
    if i < |p.parts| {
      CollectIsPostOrder(p.parts[i], c);
      ChildrenArePostOrder(p, i + 1, c);
      OfAppend(PostOrder(p.parts[i]), PostOrderChildren(p, i + 1), c);
    }
  }

  /** The non-empty strings of `xs`, in order. */
  function NonEmpty(xs: seq<string>): (r: seq<string>)
    ensures forall i :: 0 <= i < |r| ==> r[i] != ""
  {
    if xs == [] then []
    else (if xs[0] != "" then [xs[0]] else []) + NonEmpty(xs[1..])
  }

  /** Every text of `xs` is empty. */
  predicate AllEmpty(xs: seq<string>) {
    forall i :: 0 <= i < |xs| ==> xs[i] == ""
  }

  /** `"\n\n".join([t for t in xs if t])`. */
  function JoinNonEmpty(xs: seq<string>): string {
    Join(NonEmpty(xs), "\n\n")
  }

  /** Joining only the non-empty texts gives `""` exactly when every text is empty. */
  lemma {:induction false} JoinNonEmptyEmpty(xs: seq<string>)
    ensures JoinNonEmpty(xs) == "" <==> AllEmpty(xs)
    decreases |xs|
  {
    if xs != [] {
      JoinNonEmptyEmpty(xs[1..]);
      var ne := NonEmpty(xs);
      if xs[0] != "" {
        assert ne[0] == xs[0];
        if |ne| > 1 {
          assert Join(ne, "\n\n") == ne[0] + "\n\n" + Join(ne[1..], "\n\n");
        }
      } else {
        assert ne == NonEmpty(xs[1..]);
        assert forall i :: 1 <= i < |xs| ==> xs[i] == xs[1..][i - 1];
      }
    }
  }

  /** `get_email_content`'s text: the non-empty plain texts joined by blank
      lines when any plain part was collected; otherwise the joined HTML texts
      converted by `html_to_text`; otherwise the top-level body on its own. */
  function Extract(payload: Part, c: Codecs): (r: string)
    ensures Collect(payload, c).plain != [] ==>
              (r == "" <==> AllEmpty(Collect(payload, c).plain))
    ensures Collect(payload, c).plain == [] && Collect(payload, c).html != [] ==>
              Html.Trimmed(r) && Html.NoCarriageReturn(r) && Html.NoTripleNewline(r)
  {
    var t := Collect(payload, c);
    if t.plain != [] then
      JoinNonEmptyEmpty(t.plain);
      JoinNonEmpty(t.plain)
    else if t.html != [] then Html.HtmlToText(JoinNonEmpty(t.html), c.unescape)
    else if payload.data != "" then
      var raw := DecodePart(payload.data, c);
      if StartsWith(payload.mimeType, "text/html") then Html.HtmlToText(raw, c.unescape) else raw
    else ""
  }

  /** When any plain-text part exists anywhere in the tree, the result is
      those texts joined, whatever HTML parts there are and wherever they sit;
      the unescaping library is never consulted. */
  lemma PlainWins(payload: Part, c: Codecs, unescape: string -> string)
    requires PlainOf(PostOrder(payload), c) != []
    ensures Extract(payload, c) == JoinNonEmpty(PlainOf(PostOrder(payload), c))
    ensures Extract(payload, c) == Extract(payload, c.(unescape := unescape))
  {
    CollectIsPostOrder(payload, c);
    CollectIsPostOrder(payload, c.(unescape := unescape));
    assert forall ps: seq<Part> :: PlainOf(ps, c) == PlainOf(ps, c.(unescape := unescape)) by {
      forall ps: seq<Part> ensures PlainOf(ps, c) == PlainOf(ps, c.(unescape := unescape)) {
        SameDecodeSamePlain(ps, c, c.(unescape := unescape));
      }
    }
  }

  lemma {:induction false} SameDecodeSamePlain(ps: seq<Part>, c: Codecs, d: Codecs)
    requires c.decode == d.decode
    ensures PlainOf(ps, c) == PlainOf(ps, d)
    decreases |ps|
  {
    if ps != [] {
      SameDecodeSamePlain(ps[1..], c, d);
    }
  }

  /** With no plain part but some HTML part, the result is the HTML texts
      joined by blank lines and converted to text. */
  lemma HtmlFallback(payload: Part, c: Codecs)
    requires PlainOf(PostOrder(payload), c) == [] && HtmlOf(PostOrder(payload), c) != []
    ensures Extract(payload, c) == Html.HtmlToText(JoinNonEmpty(HtmlOf(PostOrder(payload), c)), c.unescape)
  {
    CollectIsPostOrder(payload, c);
  }

  /** With no plain or HTML part in the tree, the result is the top-level
      body decoded as it is: the HTML conversion of that last fallback can
      never apply, because an HTML top-level body would have been collected. */
  lemma LastResortIsRaw(payload: Part, c: Codecs)
    requires PlainOf(PostOrder(payload), c) == [] && HtmlOf(PostOrder(payload), c) == []
    ensures Extract(payload, c) == if payload.data != "" then DecodePart(payload.data, c) else ""
  {
    CollectIsPostOrder(payload, c);
    OfAppend(PostOrderChildren(payload, 0), [payload], c);
    assert [payload][1..] == [];
  }
}

/** Worked examples of the extractor on small trees. */
module MimeExamples {
  import opened Wrappers
  import opened Mime

  /** A decoder that treats the data as already decoded, except that `"!"` fails. */
  function Identity(d: string): Option<string> {
    if d == "!" then None else Some(d)
  }

  /** In a `multipart/alternative` body whose HTML part comes first, the later
      plain-text part is still the one returned. */
  lemma HtmlFirstPlainReturned(unescape: string -> string)
    ensures Extract(Part("multipart/alternative", "",
                         [Part("text/html", "<b>Hi</b>", []), Part("text/plain", "Hi", [])]),
                    Codecs(Identity, unescape)) == "Hi"
  {
    var c := Codecs(Identity, unescape);
    var h := Part("text/html", "<b>Hi</b>", []);
    var pl := Part("text/plain", "Hi", []);
    var root := Part("multipart/alternative", "", [h, pl]);
    assert Collect(root, c).plain == ["Hi"] by {
      assert Collect(h, c) == Texts([], ["<b>Hi</b>"]);
      assert Collect(pl, c) == Texts(["Hi"], []);
      assert CollectChildren(root, 2, c) == Texts([], []);
      assert CollectChildren(root, 1, c) == Texts(["Hi"], []);
      assert CollectChildren(root, 0, c) == Texts(["Hi"], ["<b>Hi</b>"]);
    }
    assert NonEmpty(["Hi"]) == ["Hi"];
  }

  /** A plain-text part that decodes to nothing still wins over a non-empty
      HTML part: the result is empty, with no fallback to the HTML. */
  lemma EmptyPlainBlocksHtml(unescape: string -> string)
    ensures Extract(Part("multipart/alternative", "",
                         [Part("text/plain", "!", []), Part("text/html", "<b>Hi</b>", [])]),
                    Codecs(Identity, unescape)) == ""
  {
    var c := Codecs(Identity, unescape);
    var pl := Part("text/plain", "!", []);
    var h := Part("text/html", "<b>Hi</b>", []);
    var root := Part("multipart/alternative", "", [pl, h]);
    assert Collect(root, c).plain == [""] by {
      assert Collect(pl, c) == Texts([""], []);
      assert Collect(h, c) == Texts([], ["<b>Hi</b>"]);
      assert CollectChildren(root, 2, c) == Texts([], []);
      assert CollectChildren(root, 1, c) == Texts([], ["<b>Hi</b>"]);
      assert CollectChildren(root, 0, c) == Texts([""], ["<b>Hi</b>"]);
    }
    assert NonEmpty([""]) == [];
  }
}
