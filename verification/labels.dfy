/** `apply_label` of read_email.py: a `/`-separated label path is resolved level
    by level against the provider's label list, matching names ignoring case;
    the levels that do not exist yet are created in order, and only the deepest
    level's id is attached to the message.

    The label list is a sequence of `(id, name)` pairs in the provider's order.
    Creating a label is a provider call whose id is not ours to choose, so the
    id the provider hands out for a name is a parameter `mint`; re-listing the
    labels after a creation yields the old list followed by the new label. */
module Labels {
  import opened Wrappers
  import opened Text

  datatype Label = Label(id: string, name: string)

  /** Index of the first label whose name equals `name` ignoring case, or
      `|store|` when there is none. */
  function MatchIndex(store: seq<Label>, name: string): (k: nat)
    ensures k <= |store|
    ensures forall j :: 0 <= j < k ==> !CiEq(store[j].name, name)
    ensures k < |store| ==> CiEq(store[k].name, name)
  {
    if store == [] then 0
    else if CiEq(store[0].name, name) then 0
    else 1 + MatchIndex(store[1..], name)
  }

  /** The id of the first label matching `name`, as the source's lookup loop
      finds it before it breaks. */
  function FindLabel(store: seq<Label>, name: string): Option<string> {
    var k := MatchIndex(store, name);
    if k < |store| then Some(store[k].id) else None
  }

  /** The lookup yields an id the source accepts: present and non-empty. */
  predicate Resolves(store: seq<Label>, name: string) {
    var f := FindLabel(store, name);
    f.Some? && f.value != ""
  }

  /** The paths the source resolves for `path`: `"/".join(parts[:i + 1])` for
      every piece of `path.split("/")`. */
  function Levels(path: string): (r: seq<string>)
    ensures |r| == |Split(path, '/')|
    ensures r[|r| - 1] == path
    ensures forall i :: 0 <= i < |r| - 1 ==> StartsWith(path, r[i] + "/")
    ensures Increasing(r)
  {
    var parts := Split(path, '/');
    SplitJoin(path, '/');
    assert parts[..|parts|] == parts;
    PrefixJoinsIncreasing(parts);
    PrefixJoinsArePrefixes(parts);
    PrefixJoins(parts)
  }

  /** Every level but the last, followed by `/`, starts the whole path. */
  lemma PrefixJoinsArePrefixes(parts: seq<string>)
    ensures forall i :: 0 <= i < |parts| - 1 ==> StartsWith(Join(parts, "/"), PrefixJoins(parts)[i] + "/")
  {
    forall i | 0 <= i < |parts| - 1
      ensures StartsWith(Join(parts, "/"), PrefixJoins(parts)[i] + "/")
    {
      var head := Join(parts[..i + 1], "/");
      JoinAt(parts, i + 1, "/");
      assert (head + "/" + Join(parts[i + 1..], "/"))[..|head + "/"|] == head + "/";
    }
  }

  /** `"/".join(parts[:i + 1])` for every index of `parts`. */
  function PrefixJoins(parts: seq<string>): (r: seq<string>)
    ensures |r| == |parts|
    ensures forall i :: 0 <= i < |parts| ==> r[i] == Join(parts[..i + 1], "/")
  {
    seq(|parts|, i requires 0 <= i < |parts| => Join(parts[..i + 1], "/"))
  }

  lemma PrefixJoinsIncreasing(parts: seq<string>)
    ensures Increasing(PrefixJoins(parts))
  {
    var r := PrefixJoins(parts);
    forall i, j | 0 <= i < j < |r| ensures |r[i]| < |r[j]| {
      JoinPrefixesGrow(parts, i, j);
    }
  }

  /** Every later level is strictly longer than every earlier one. */
  predicate Increasing(levels: seq<string>) {
    forall i, j :: 0 <= i < j < |levels| ==> |levels[i]| < |levels[j]|
  }

  lemma {:induction false} JoinPrefixesGrow(parts: seq<string>, i: nat, j: nat)
    requires i < j < |parts|
    ensures |Join(parts[..i + 1], "/")| < |Join(parts[..j + 1], "/")|
    decreases j - i
  {
    assert parts[..j + 1] == parts[..j] + [parts[j]];
    JoinSnoc(parts[..j], parts[j], "/");
    if i < j - 1 {
      JoinPrefixesGrow(parts, i, j - 1);
    }
  }

  /** The labels the source creates for `names`, in order. */
  function Created(names: seq<string>, mint: string -> string): (r: seq<Label>)
    ensures |r| == |names|
    ensures forall k :: 0 <= k < |names| ==> r[k] == Label(mint(names[k]), names[k])
  {
    seq(|names|, k requires 0 <= k < |names| => Label(mint(names[k]), names[k]))
  }

  /** The levels that do not resolve in `store`, in order. */
  function Missing(store: seq<Label>, levels: seq<string>): (r: seq<string>)
    ensures forall x :: x in r ==> x in levels
  {
    if levels == [] then []
    else (if Resolves(store, levels[0]) then [] else [levels[0]]) + Missing(store, levels[1..])
  }

  /** The state of the level loop: the label list as last listed, the paths
      created so far, and the id chosen for the deepest level. */
  datatype Walked = Walked(store: seq<Label>, created: seq<string>, deepest: Option<string>)

  /** The level loop of `apply_label` over the remaining `levels`. */
  function Walk(store: seq<Label>, levels: seq<string>, mint: string -> string): (w: Walked)
    ensures |w.store| == |store| + |w.created| && w.store[..|store|] == store
    ensures forall x :: x in w.created ==> x in levels
    ensures |levels| > 0 ==> w.deepest.Some?
    decreases |levels|
  {
    if levels == [] then Walked(store, [], None)
    else
      var name := levels[0];
      if Resolves(store, name) then
        var rest := Walk(store, levels[1..], mint);
        if |levels| == 1 then rest.(deepest := FindLabel(store, name)) else rest
      else
        var id := mint(name);
        var rest := Walk(store + [Label(id, name)], levels[1..], mint);
        Walked(rest.store, [name] + rest.created, if |levels| == 1 then Some(id) else rest.deepest)
  }

  /** Appending a label that does not match `name` leaves the lookup of `name` alone. */
  lemma FindAppendOther(store: seq<Label>, x: Label, name: string)
    requires !CiEq(x.name, name)
    ensures FindLabel(store + [x], name) == FindLabel(store, name)
  {
    var k := MatchIndex(store, name);
    var s := store + [x];
    assert forall j :: 0 <= j < |store| ==> s[j] == store[j];
    if k < |store| {
      MatchIndexUnique(s, name, k);
    } else {
      MatchIndexUnique(s, name, |s|);
    }
  }

  /** A lookup that succeeds keeps succeeding, with the same id, when labels are appended. */
  lemma FindAppendKeeps(store: seq<Label>, extra: seq<Label>, name: string)
    requires FindLabel(store, name).Some?
    ensures FindLabel(store + extra, name) == FindLabel(store, name)
  {
    var k := MatchIndex(store, name);
    var s := store + extra;
    assert forall j :: 0 <= j < |store| ==> s[j] == store[j];
    MatchIndexUnique(s, name, k);
  }

  lemma MatchIndexUnique(store: seq<Label>, name: string, k: nat)
    requires k <= |store|
    requires forall j :: 0 <= j < k ==> !CiEq(store[j].name, name)
    requires k < |store| ==> CiEq(store[k].name, name)
    ensures MatchIndex(store, name) == k
  {
  }

  /** Levels that are all longer than `x.name` resolve the same with or without `x`. */
  lemma {:induction false} MissingIgnoresShorter(store: seq<Label>, x: Label, levels: seq<string>)
    requires forall i :: 0 <= i < |levels| ==> |x.name| < |levels[i]|
    ensures Missing(store + [x], levels) == Missing(store, levels)
    decreases |levels|
  {
    if levels != [] {
      if CiEq(x.name, levels[0]) {
        CiEqSameLength(x.name, levels[0]);
      }
      FindAppendOther(store, x, levels[0]);
      MissingIgnoresShorter(store, x, levels[1..]);
    }
  }

  /** What the level loop does, stated against the label list it started
      from: it creates exactly the missing levels, in order, appends nothing
      else, every level is found afterwards, and the deepest level's id is the
      existing one when it resolves and the newly created one otherwise. */
  predicate WalkOk(store: seq<Label>, levels: seq<string>, mint: string -> string, w: Walked) {
    && w.created == Missing(store, levels)
    && w.store == store + Created(Missing(store, levels), mint)
    && (|levels| > 0 ==>
          w.deepest == Some(DeepestId(store, levels[|levels| - 1], mint)))
    && (forall l :: l in levels ==> FindLabel(w.store, l).Some?)
  }

  /** The id the source attaches for path `last`: the existing label's when it
      resolves, otherwise the id of the label it creates. */
  function DeepestId(store: seq<Label>, last: string, mint: string -> string): string {
    if Resolves(store, last) then FindLabel(store, last).value else mint(last)
  }

  lemma {:induction false} WalkSpec(store: seq<Label>, levels: seq<string>, mint: string -> string)
    requires Increasing(levels)
    ensures WalkOk(store, levels, mint, Walk(store, levels, mint))
    decreases |levels|
  {
    if levels != [] {
      var tail := levels[1..];
      assert Increasing(tail);
      if Resolves(store, levels[0]) {
        WalkSpec(store, tail, mint);
        WalkResolvedStep(store, levels, mint, Walk(store, tail, mint));
      } else {
        var store1 := store + [Label(mint(levels[0]), levels[0])];
        WalkSpec(store1, tail, mint);
        WalkCreateStep(store, levels, mint, Walk(store1, tail, mint));
      }
    }
  }

  /** One level that already resolves: nothing is created for it. */
  lemma WalkResolvedStep(store: seq<Label>, levels: seq<string>, mint: string -> string, rest: Walked)
    requires levels != [] && Resolves(store, levels[0])
    requires WalkOk(store, levels[1..], mint, rest)
    ensures WalkOk(store, levels, mint, if |levels| == 1 then rest.(deepest := FindLabel(store, levels[0])) else rest)
  {
    var name := levels[0];
    var tail := levels[1..];
    assert Missing(store, levels) == Missing(store, tail);
    FindAppendKeeps(store, Created(Missing(store, tail), mint), name);
    if |levels| > 1 {
      assert levels[|levels| - 1] == tail[|tail| - 1];
    }
    assert forall l :: l in levels ==> l == name || l in tail;
  }

  /** One level that does not resolve: it is created and appended to the list,
      which cannot disturb the lookups of the longer levels after it. */
  lemma WalkCreateStep(store: seq<Label>, levels: seq<string>, mint: string -> string, rest: Walked)
    requires levels != [] && !Resolves(store, levels[0]) && Increasing(levels)
    requires WalkOk(store + [Label(mint(levels[0]), levels[0])], levels[1..], mint, rest)
    ensures WalkOk(store, levels, mint,
                   Walked(rest.store, [levels[0]] + rest.created,
                          if |levels| == 1 then Some(mint(levels[0])) else rest.deepest))
  {
    var name := levels[0];
    var tail := levels[1..];
    var x := Label(mint(name), name);
    var store1 := store + [x];
    assert forall i :: 0 <= i < |tail| ==> |name| < |tail[i]| by {
      assert forall i :: 0 <= i < |tail| ==> tail[i] == levels[i + 1];
    }
    MissingIgnoresShorter(store, x, tail);
    var m := Missing(store, tail);
    assert Missing(store, levels) == [name] + m;
    CreatedCons(name, m, mint);
    AppendAssoc(store, [x], Created(m, mint));
    CreatedStepFinds(store, name, mint, tail, Created(m, mint));
    if |levels| > 1 {
      CreatedStepDeepest(store, x, levels);
      assert levels[|levels| - 1] == tail[|tail| - 1];
    }
  }

  lemma AppendAssoc<T>(a: seq<T>, b: seq<T>, c: seq<T>)
    ensures (a + b) + c == a + (b + c)
  {
  }

  lemma CreatedCons(name: string, m: seq<string>, mint: string -> string)
    ensures Created([name] + m, mint) == [Label(mint(name), name)] + Created(m, mint)
  {
  }

  /** After creating `name`, it is found, and so is every later level found
      from the extended list. */
  lemma CreatedStepFinds(store: seq<Label>, name: string, mint: string -> string, tail: seq<string>, extra: seq<Label>)
    requires forall l :: l in tail ==> FindLabel(store + [Label(mint(name), name)] + extra, l).Some?
    ensures forall l :: l in [name] + tail ==> FindLabel(store + [Label(mint(name), name)] + extra, l).Some?
  {
    var store1 := store + [Label(mint(name), name)];
    assert store1[|store|].name == name;
    assert MatchIndex(store1, name) <= |store|;
    FindAppendKeeps(store1, extra, name);
  }

  /** The deepest level, longer than the one just created, resolves the same
      with or without it. */
  lemma CreatedStepDeepest(store: seq<Label>, x: Label, levels: seq<string>)
    requires |levels| > 1 && Increasing(levels) && x.name == levels[0]
    ensures Resolves(store + [x], levels[|levels| - 1]) == Resolves(store, levels[|levels| - 1])
    ensures FindLabel(store + [x], levels[|levels| - 1]) == FindLabel(store, levels[|levels| - 1])
  {
    var last := levels[|levels| - 1];
    assert |x.name| < |last|;
    if CiEq(x.name, last) {
      CiEqSameLength(x.name, last);
    }
    FindAppendOther(store, x, last);
  }

  /** The outcome of `apply_label`: the label list afterwards, the paths created
      (in creation order), and the one label id attached to the message. */
  datatype Applied = Applied(store: seq<Label>, created: seq<string>, attached: string)

  /** `apply_label(service, msg_id, path)`. */
  function ApplyLabel(store: seq<Label>, path: string, mint: string -> string): (r: Applied)
    ensures r.created == Missing(store, Levels(path))
    ensures r.store == store + Created(r.created, mint)
    ensures r.attached == DeepestId(store, path, mint)
    ensures forall l :: l in Levels(path) ==> FindLabel(r.store, l).Some?
  {
    var levels := Levels(path);
    WalkSpec(store, levels, mint);
    var w := Walk(store, levels, mint);
    Applied(w.store, w.created, w.deepest.value)
  }

  /** Applying the same path again, once every id is non-empty, creates nothing
      and attaches the same label. */
  lemma ApplyLabelIdempotent(store: seq<Label>, path: string, mint: string -> string)
    requires forall k :: 0 <= k < |store| ==> store[k].id != ""
    requires forall n :: mint(n) != ""
    ensures ApplyLabel(ApplyLabel(store, path, mint).store, path, mint).created == []
    ensures ApplyLabel(ApplyLabel(store, path, mint).store, path, mint).store
         == ApplyLabel(store, path, mint).store
    ensures ApplyLabel(ApplyLabel(store, path, mint).store, path, mint).attached
         == ApplyLabel(store, path, mint).attached
  {
    var first := ApplyLabel(store, path, mint);
    var s1 := first.store;
    IdsStayNonEmpty(store, first.created, mint);
    AllLevelsResolve(s1, Levels(path));
    NothingMissing(s1, Levels(path));
    if !Resolves(store, path) {
      CreatedLabelFound(store, path, mint);
    } else {
      FindAppendKeeps(store, Created(first.created, mint), path);
    }
  }

  /** Labels created with non-empty ids keep every id of the list non-empty. */
  lemma IdsStayNonEmpty(store: seq<Label>, names: seq<string>, mint: string -> string)
    requires forall k :: 0 <= k < |store| ==> store[k].id != ""
    requires forall n :: mint(n) != ""
    ensures forall k :: 0 <= k < |store + Created(names, mint)| ==> (store + Created(names, mint))[k].id != ""
  {
    var s1 := store + Created(names, mint);
    forall k | 0 <= k < |s1| ensures s1[k].id != "" {
      if k >= |store| {
        assert s1[k] == Created(names, mint)[k - |store|];
      }
    }
  }

  /** In a list whose ids are all non-empty, every level that is found resolves. */
  lemma AllLevelsResolve(s1: seq<Label>, levels: seq<string>)
    requires forall k :: 0 <= k < |s1| ==> s1[k].id != ""
    requires forall l :: l in levels ==> FindLabel(s1, l).Some?
    ensures forall l :: l in levels ==> Resolves(s1, l)
  {
  }

  /** When the path did not resolve and no id is empty, looking the path up
      after the first application finds the label that application created. */
  lemma CreatedLabelFound(store: seq<Label>, path: string, mint: string -> string)
    requires forall k :: 0 <= k < |store| ==> store[k].id != ""
    requires !Resolves(store, path)
    ensures FindLabel(ApplyLabel(store, path, mint).store, path) == Some(mint(path))
  {
    var levels := Levels(path);
    var names := Missing(store, levels);
    MissingHas(store, levels, path);
    forall n | n in names && CiEq(n, path) ensures n == path {
      CiEqSameLength(n, path);
      OnlyLastHasItsLength(levels, n);
    }
    FirstMatchAmongCreated(store, names, mint, path);
  }

  /** With no match in `store`, the lookup of `path` after appending the labels
      created for `names` finds the one created for `path` itself, when that is
      the only name matching it. */
  lemma FirstMatchAmongCreated(store: seq<Label>, names: seq<string>, mint: string -> string, path: string)
    requires MatchIndex(store, path) == |store|
    requires path in names
    requires forall n :: n in names && CiEq(n, path) ==> n == path
    ensures FindLabel(store + Created(names, mint), path) == Some(mint(path))
  {
    var made := Created(names, mint);
    MatchIndexPastStore(store, made, path);
    var m := MatchIndex(made, path);
    var idx := IndexIn(names, path);
    assert made[idx].name == path;
    assert m <= idx;
    assert names[m] in names;
    assert (store + made)[|store| + m] == made[m];
  }

  /** When nothing in `store` matches, the first match in `store + more` is the
      first match in `more`, shifted past `store`. */
  lemma MatchIndexPastStore(store: seq<Label>, more: seq<Label>, name: string)
    requires MatchIndex(store, name) == |store|
    ensures MatchIndex(store + more, name) == |store| + MatchIndex(more, name)
  {
    var all := store + more;
    var k := |store| + MatchIndex(more, name);
    assert forall j :: 0 <= j < |store| ==> all[j] == store[j];
    assert forall j :: |store| <= j < |all| ==> all[j] == more[j - |store|];
    MatchIndexUnique(all, name, k);
  }

  /** A name appearing in a sequence has an index there. */
  function IndexIn(xs: seq<string>, x: string): (k: nat)
    requires x in xs
    ensures k < |xs| && xs[k] == x
  {
    if xs[0] == x then 0 else 1 + IndexIn(xs[1..], x)
  }

  /** In strictly lengthening levels, the only level as long as the last one is the last one. */
  lemma OnlyLastHasItsLength(levels: seq<string>, n: string)
    requires |levels| > 0 && Increasing(levels)
    requires n in levels && |n| == |levels[|levels| - 1]|
    ensures n == levels[|levels| - 1]
  {
    var k := IndexIn(levels, n);
    IncreasingAt(levels, k, |levels| - 1);
  }

  lemma IncreasingAt(levels: seq<string>, i: nat, j: nat)
    requires Increasing(levels) && i <= j < |levels|
    ensures i == j || |levels[i]| < |levels[j]|
  {
  }

  /** A level that does not resolve is among the missing ones. */
  lemma {:induction false} MissingHas(store: seq<Label>, levels: seq<string>, l: string)
    requires l in levels && !Resolves(store, l)
    ensures l in Missing(store, levels)
    decreases |levels|
  {
    if levels[0] != l {
      assert l in levels[1..];
      MissingHas(store, levels[1..], l);
    }
  }

  /** When every level resolves, nothing is missing. */
  lemma {:induction false} NothingMissing(store: seq<Label>, levels: seq<string>)
    requires forall l :: l in levels ==> Resolves(store, l)
    ensures Missing(store, levels) == []
    decreases |levels|
  {
    if levels != [] {
      assert levels[0] in levels;
      assert forall l :: l in levels[1..] ==> l in levels;
      NothingMissing(store, levels[1..]);
    }
  }

  /** The levels of a two-level path such as `"Jobs/Interview"`. */
  lemma TwoLevels(top: string, sub: string)
    requires '/' !in top && '/' !in sub
    ensures Levels(top + "/" + sub) == [top, top + "/" + sub]
  {
    var path := top + "/" + sub;
    var parts := [top, sub];
    assert parts[1..] == [sub];
    assert Join(parts, "/") == path;
    JoinSplit(parts, '/');
    assert parts[..1] == [top];
    assert parts[..2] == parts;
    var r := Levels(path);
    assert r[0] == Join(parts[..1], "/");
    assert r[1] == Join(parts[..2], "/");
  }

  /** With no label existing yet, a two-level path such as `"Jobs/Interview"`
      creates the top level and then the full path, and attaches only the
      second. */
  lemma NestedOnEmptyList(top: string, sub: string, mint: string -> string)
    requires '/' !in top && '/' !in sub
    ensures ApplyLabel([], top + "/" + sub, mint).created == [top, top + "/" + sub]
    ensures ApplyLabel([], top + "/" + sub, mint).attached == mint(top + "/" + sub)
    ensures ApplyLabel([], top + "/" + sub, mint).store
         == [Label(mint(top), top), Label(mint(top + "/" + sub), top + "/" + sub)]
  {
    var path := top + "/" + sub;
    TwoLevels(top, sub);
    var levels := [top, path];
    assert !Resolves([], top) && !Resolves([], path);
    assert levels[1..][1..] == [];
    assert Missing([], levels[1..]) == [path];
    assert Missing([], levels) == levels;
    var made := Created(levels, mint);
    assert made == [Label(mint(top), top), Label(mint(path), path)] by {
      assert made[0] == Label(mint(top), top);
      assert made[1] == Label(mint(path), path);
    }
    assert [] + made == made;
  }
}
