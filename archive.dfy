/** The archive builder's walk callback and what it produces. The archive is
    kept as its list of entries (relative path and bytes), in the order they
    were added; the ZIP encoding itself is not modelled. */
module Archive {
  import opened Text
  import opened Fs

  datatype Option<T> = None | Some(value: T)

  /** One archive entry: the path relative to the walked directory and the
      bytes copied into it. */
  datatype Entry = Entry(path: string, data: seq<byte>)

  /** The walk callback on one step, given the entries written so far and the
      relative paths for which creating an entry fails. `None` is the error
      that stops the walk. */
  function Callback(acc: seq<Entry>, step: Step, rejected: set<string>): (r: Option<seq<Entry>>)
    ensures r.Some? ==> acc <= r.value && |r.value| <= |acc| + 1
    ensures r.Some? && |r.value| == |acc| + 1 ==>
      step.Visit? && step.node.File? && r.value[|acc|] == Entry(RelPath(step.at), step.node.data)
  {
    match step
    case Fail(_) => None
    case Visit(at, n) =>
      match n
      case Dir(_, _, _) => Some(acc)
      case Unreadable(_) => None
      case File(_, openOk, data, readFault) =>
        if !openOk || RelPath(at) in rejected || readFault then None
        else Some(acc + [Entry(RelPath(at), data)])
  }

  /** The callback run over the walk's steps until the first error. */
  function Fold(steps: seq<Step>, acc: seq<Entry>, rejected: set<string>): (r: Option<seq<Entry>>)
    ensures r.Some? ==> acc <= r.value && |r.value| <= |acc| + |steps|
    ensures (exists i :: 0 <= i < |steps| && steps[i].Fail?) ==> r.None?
    decreases |steps|
  {
    if steps == [] then Some(acc)
    else
      match Callback(acc, steps[0], rejected)
      case None => None
      case Some(next) => Fold(steps[1..], next, rejected)
  }

  lemma {:induction false} FoldAppend(s1: seq<Step>, s2: seq<Step>, acc: seq<Entry>, rejected: set<string>)
    ensures Fold(s1 + s2, acc, rejected) ==
      match Fold(s1, acc, rejected)
      case None => None
      case Some(mid) => Fold(s2, mid, rejected)
    decreases |s1|
  {
    if s1 != [] {
      assert (s1 + s2)[0] == s1[0];
      assert (s1 + s2)[1..] == s1[1..] + s2;
      match Callback(acc, s1[0], rejected)
      case None =>
      case Some(next) => FoldAppend(s1[1..], s2, next, rejected);
    } else {
      assert s1 + s2 == s2;
    }
  }

  /** A regular file found under the walked directory, at its position. */
  datatype Located = Located(at: seq<string>, data: seq<byte>)

  /** The regular files of a tree in pre-order, defined directly on the tree:
      the reference the archive is compared against. */
  function RegularFiles(n: Node, at: seq<string>): seq<Located>
    decreases n
  {
    match n
    case File(_, _, data, _) => [Located(at, data)]
    case Unreadable(_) => []
    case Dir(_, _, cs) => RegularFilesAll(cs, at)
  }

  function RegularFilesAll(cs: seq<Node>, at: seq<string>): seq<Located>
    decreases cs
  {
    if cs == [] then [] else RegularFiles(cs[0], at + [cs[0].name]) + RegularFilesAll(cs[1..], at)
  }

  /** The entries the archive holds for a list of files. */
  function Entries(ls: seq<Located>): (es: seq<Entry>)
    ensures |es| == |ls|
    ensures forall i :: 0 <= i < |ls| ==> es[i] == Entry(RelPath(ls[i].at), ls[i].data)
  {
    if ls == [] then [] else [Entry(RelPath(ls[0].at), ls[0].data)] + Entries(ls[1..])
  }

  lemma EntriesAppend(acc: seq<Entry>, a: seq<Located>, b: seq<Located>)
    ensures acc + Entries(a + b) == acc + Entries(a) + Entries(b)
  {
    assert |Entries(a + b)| == |Entries(a) + Entries(b)|;
    forall i | 0 <= i < |a + b| ensures Entries(a + b)[i] == (Entries(a) + Entries(b))[i] {
      if i < |a| { assert (a + b)[i] == a[i]; } else { assert (a + b)[i] == b[i - |a|]; }
    }
    assert Entries(a + b) == Entries(a) + Entries(b);
  }

  /** No step of the walk fails: every entry can be stat'ed, every directory
      listed, every file opened, read to the end and given an entry. */
  predicate Healthy(n: Node, at: seq<string>, rejected: set<string>)
    decreases n
  {
    match n
    case File(_, openOk, _, readFault) => openOk && !readFault && RelPath(at) !in rejected
    case Unreadable(_) => false
    case Dir(_, listOk, cs) => listOk && HealthyAll(cs, at, rejected)
  }

  predicate HealthyAll(cs: seq<Node>, at: seq<string>, rejected: set<string>)
    decreases cs
  {
    cs == [] || (Healthy(cs[0], at + [cs[0].name], rejected) && HealthyAll(cs[1..], at, rejected))
  }

  /** All or nothing: the callback run over the whole walk yields exactly one
      entry per regular file, in walk order, when no step fails, and an error
      otherwise. */
  lemma {:induction false} WalkArchive(n: Node, at: seq<string>, acc: seq<Entry>, rejected: set<string>)
    ensures Fold(Walk(n, at), acc, rejected) ==
      if Healthy(n, at, rejected) then Some(acc + Entries(RegularFiles(n, at))) else None
    decreases n
  {
    match n
    case File(_, _, data, _) =>
      assert Walk(n, at)[1..] == [];
      assert Entries(RegularFiles(n, at)) == [Entry(RelPath(at), data)];
    case Unreadable(_) =>
    case Dir(_, listOk, cs) =>
      if listOk {
        FoldAppend([Visit(at, n)], WalkAll(cs, at), acc, rejected);
        assert [Visit(at, n)][1..] == [];
        WalkAllArchive(cs, at, acc, rejected);
      }
  }

  lemma {:induction false} WalkAllArchive(cs: seq<Node>, at: seq<string>, acc: seq<Entry>, rejected: set<string>)
    ensures Fold(WalkAll(cs, at), acc, rejected) ==
      if HealthyAll(cs, at, rejected) then Some(acc + Entries(RegularFilesAll(cs, at))) else None
    decreases cs
  {
    if cs != [] {
      var at' := at + [cs[0].name];
      var w0, w1 := Walk(cs[0], at'), WalkAll(cs[1..], at);
      assert WalkAll(cs, at) == w0 + w1;
      FoldAppend(w0, w1, acc, rejected);
      WalkArchive(cs[0], at', acc, rejected);
      if Healthy(cs[0], at', rejected) {
        var f0, f1 := RegularFiles(cs[0], at'), RegularFilesAll(cs[1..], at);
        var mid := acc + Entries(f0);
        WalkAllArchive(cs[1..], at, mid, rejected);
        assert HealthyAll(cs, at, rejected) == HealthyAll(cs[1..], at, rejected);
        if HealthyAll(cs[1..], at, rejected) {
          EntriesAppend(acc, f0, f1);
        }
      } else {
        assert !HealthyAll(cs, at, rejected);
      }
    } else {
      assert acc + Entries([]) == acc;
    }
  }

  /** A directory without a single regular file below it (empty, or holding
      only directories) gives an empty archive, not an error. */
  lemma {:induction false} NoFilesEmptyArchive(n: Node, at: seq<string>, rejected: set<string>)
    requires n.Dir? && Healthy(n, at, rejected) && RegularFiles(n, at) == []
    ensures Fold(Walk(n, at), [], rejected) == Some([])
  {
    WalkArchive(n, at, [], rejected);
  }

  /** `s` lies at or below `at`, with plain names after the common prefix. */
  predicate Under(s: seq<string>, at: seq<string>)
  {
    |s| >= |at| && s[..|at|] == at && forall k :: |at| <= k < |s| ==> PlainName(s[k])
  }

  /** The names of a list of siblings. */
  function Names(cs: seq<Node>): set<string>
  {
    set i | 0 <= i < |cs| :: cs[i].name
  }

  lemma {:induction false} SitesUnder(n: Node, at: seq<string>)
    requires WellFormed(n)
    ensures forall i :: 0 <= i < |RegularFiles(n, at)| ==> Under(RegularFiles(n, at)[i].at, at)
    ensures n.Dir? ==> forall i :: 0 <= i < |RegularFiles(n, at)| ==> |RegularFiles(n, at)[i].at| > |at|
    decreases n
  {
    if n.Dir? {
      SitesUnderAll(n.children, at);
    }
  }

  lemma {:induction false} SitesUnderAll(cs: seq<Node>, at: seq<string>)
    requires forall i :: 0 <= i < |cs| ==> PlainName(cs[i].name) && WellFormed(cs[i])
    ensures forall i :: 0 <= i < |RegularFilesAll(cs, at)| ==>
      var s := RegularFilesAll(cs, at)[i].at;
      Under(s, at) && |s| > |at| && s[|at|] in Names(cs)
    decreases cs
  {
    if cs != [] {
      var at' := at + [cs[0].name];
      var first: seq<Located> := RegularFiles(cs[0], at');
      var rest: seq<Located> := RegularFilesAll(cs[1..], at);
      SitesUnder(cs[0], at');
      SitesUnderAll(cs[1..], at);
      assert Names(cs[1..]) <= Names(cs) by {
        forall x | x in Names(cs[1..]) ensures x in Names(cs) {
          var i :| 0 <= i < |cs[1..]| && cs[1..][i].name == x;
          assert cs[i + 1].name == x;
        }
      }
      assert cs[0].name in Names(cs);
      forall i: int | 0 <= i < |first + rest|
        ensures var s: seq<string> := (first + rest)[i].at; Under(s, at) && |s| > |at| && s[|at|] in Names(cs)
      {
        if i < |first| {
          var s := first[i].at;
          assert (first + rest)[i] == first[i];
          assert s[..|at'|] == at';
          assert s[..|at|] == at'[..|at|] == at;
          assert s[|at|] == at'[|at|] == cs[0].name;
        } else {
          assert (first + rest)[i] == rest[i - |first|];
        }
      }
    }
  }

  /** No two files share a position. */
  predicate DistinctSites(ls: seq<Located>)
  {
    forall i, j :: 0 <= i < j < |ls| ==> ls[i].at != ls[j].at
  }

  /** In a well-formed tree every regular file is reached exactly once: the
      walk never yields two files at the same position. */
  lemma {:induction false} SitesDistinct(n: Node, at: seq<string>)
    requires WellFormed(n)
    ensures DistinctSites(RegularFiles(n, at))
    decreases n
  {
    if n.Dir? {
      SitesDistinctAll(n.children, at);
    }
  }

  lemma {:induction false} SitesDistinctAll(cs: seq<Node>, at: seq<string>)
    requires forall i, j :: 0 <= i < j < |cs| ==> cs[i].name != cs[j].name
    requires forall i :: 0 <= i < |cs| ==> PlainName(cs[i].name) && WellFormed(cs[i])
    ensures DistinctSites(RegularFilesAll(cs, at))
    decreases cs
  {
    if cs != [] {
      var at' := at + [cs[0].name];
      var first: seq<Located> := RegularFiles(cs[0], at');
      var rest: seq<Located> := RegularFilesAll(cs[1..], at);
      SitesDistinct(cs[0], at');
      SitesDistinctAll(cs[1..], at);
      SitesUnder(cs[0], at');
      SitesUnderAll(cs[1..], at);
      assert cs[0].name !in Names(cs[1..]) by {
        forall k | 0 <= k < |cs[1..]| ensures cs[1..][k].name != cs[0].name {
          assert cs[1..][k] == cs[k + 1];
        }
      }
      var all := first + rest;
      forall i, j | 0 <= i < j < |all| ensures all[i].at != all[j].at {
        if j < |first| {
          assert all[i] == first[i] && all[j] == first[j];
        } else if |first| <= i {
          assert all[i] == rest[i - |first|] && all[j] == rest[j - |first|];
        } else {
          assert all[i] == first[i] && all[j] == rest[j - |first|];
          var s := first[i].at;
          assert s[..|at'|] == at';
          assert s[|at|] == at'[|at|] == cs[0].name;
          assert all[j].at[|at|] in Names(cs[1..]);
        }
      }
    }
  }

  /** For a well-formed directory the archive entries it would hold have
      pairwise distinct relative paths: each regular file appears once. */
  lemma EntryPathsDistinct(n: Node)
    requires n.Dir? && WellFormed(n)
    ensures var es := Entries(RegularFiles(n, []));
      forall i, j :: 0 <= i < j < |es| ==> es[i].path != es[j].path
  {
    var ls := RegularFiles(n, []);
    SitesDistinct(n, []);
    SitesUnder(n, []);
    forall i, j | 0 <= i < j < |ls| ensures RelPath(ls[i].at) != RelPath(ls[j].at) {
      var x, y := ls[i].at, ls[j].at;
      assert Under(x, []) && Under(y, []);
      assert forall k :: 0 <= k < |x| ==> '/' !in x[k];
      assert forall k :: 0 <= k < |y| ==> '/' !in y[k];
      RelPathNames(x);
      RelPathNames(y);
    }
  }
}
