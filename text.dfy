/** String helpers the server relies on: `strings.Split`/`strings.Join`
    (used to normalise the log file name) and `filepath.Base` (used for the
    download file name and the scratch archive name), over plain `string`s. */
module Text {

  /** The pieces of `s` between occurrences of `sep`, as `strings.Split` gives
      them: one more piece than there are separators, none containing `sep`. */
  function Split(s: string, sep: char): (parts: seq<string>)
    ensures |parts| >= 1
    ensures forall i :: 0 <= i < |parts| ==> sep !in parts[i]
    decreases |s|
  {
    if |s| == 0 then [""]
    else
      var rest := Split(s[1..], sep);
      if s[0] == sep then [""] + rest
      else [[s[0]] + rest[0]] + rest[1..]
  }

  /** `strings.Join`: the pieces with one `sep` between neighbours. */
  function Join(parts: seq<string>, sep: char): (r: string)
    ensures |parts| == 0 ==> r == ""
    ensures |parts| >= 1 ==> parts[0] <= r
    ensures |parts| >= 2 ==> |r| > |parts[0]| && r[|parts[0]|] == sep
  {
    if |parts| == 0 then ""
    else if |parts| == 1 then parts[0]
    else parts[0] + [sep] + Join(parts[1..], sep)
  }

  /** Every `a` in `s` replaced by `b`, every other character kept. */
  function Replace(s: string, a: char, b: char): (r: string)
    ensures |r| == |s|
    ensures forall i :: 0 <= i < |s| ==> r[i] == if s[i] == a then b else s[i]
  {
    if |s| == 0 then "" else [if s[0] == a then b else s[0]] + Replace(s[1..], a, b)
  }

  lemma {:induction false} JoinCons(c: char, parts: seq<string>, sep: char)
    requires |parts| >= 1
    ensures Join([[c] + parts[0]] + parts[1..], sep) == [c] + Join(parts, sep)
  {
    var ps := [[c] + parts[0]] + parts[1..];
    if |parts| > 1 {
      assert ps[1..] == parts[1..];
      assert Join(ps, sep) == ([c] + parts[0]) + [sep] + Join(parts[1..], sep);
    }
  }

  /** Splitting on `a` and joining with `b` replaces each `a` by `b`. */
  lemma {:induction false} JoinSplit(s: string, a: char, b: char)
    ensures Join(Split(s, a), b) == Replace(s, a, b)
    decreases |s|
  {
    if |s| > 0 {
      var rest := Split(s[1..], a);
      JoinSplit(s[1..], a, b);
      if s[0] == a {
        assert ([""] + rest)[1..] == rest;
      } else {
        JoinCons(s[0], rest, b);
      }
    }
  }

  /** A string without the separator splits into itself alone. */
  lemma {:induction false} SplitWhole(u: string, sep: char)
    requires sep !in u
    ensures Split(u, sep) == [u]
    decreases |u|
  {
    if |u| > 0 {
      assert sep !in u[1..] by {
        forall i | 0 <= i < |u[1..]| ensures u[1..][i] != sep { assert u[1..][i] == u[i + 1]; }
      }
      SplitWhole(u[1..], sep);
      assert u[0] != sep;
      assert [u[0]] + u[1..] == u;
    }
  }

  /** Splitting `u + sep + v` cuts at the separator right after `u`. */
  lemma {:induction false} SplitAfter(u: string, sep: char, v: string)
    requires sep !in u
    ensures Split(u + [sep] + v, sep) == [u] + Split(v, sep)
    decreases |u|
  {
    var s := u + [sep] + v;
    if |u| == 0 {
      assert s[1..] == v;
    } else {
      assert s[1..] == u[1..] + [sep] + v;
      assert sep !in u[1..] by {
        forall i | 0 <= i < |u[1..]| ensures u[1..][i] != sep { assert u[1..][i] == u[i + 1]; }
      }
      SplitAfter(u[1..], sep, v);
      assert [u[0]] + u[1..] == u;
    }
  }

  /** Splitting undoes joining when no piece holds the separator, so joining
      such pieces is injective. */
  lemma {:induction false} SplitJoin(parts: seq<string>, sep: char)
    requires |parts| >= 1
    requires forall i :: 0 <= i < |parts| ==> sep !in parts[i]
    ensures Split(Join(parts, sep), sep) == parts
    decreases |parts|
  {
    if |parts| == 1 {
      SplitWhole(parts[0], sep);
    } else {
      SplitJoin(parts[1..], sep);
      SplitAfter(parts[0], sep, Join(parts[1..], sep));
    }
  }

  /** The log file name with every space turned into `_`, computed as the
      server does it: split on spaces, join with underscores. */
  function Normalise(name: string): (r: string)
    ensures ' ' !in r
    ensures |r| == |name|
    ensures forall i :: 0 <= i < |name| ==> r[i] == if name[i] == ' ' then '_' else name[i]
  {
    JoinSplit(name, ' ', '_');
    Join(Split(name, ' '), '_')
  }

  /** Normalising an already normalised name changes nothing. */
  lemma NormaliseIdempotent(name: string)
    ensures Normalise(Normalise(name)) == Normalise(name)
  {
    var once := Normalise(name);
    var twice := Normalise(once);
    forall i | 0 <= i < |once| ensures twice[i] == once[i] {
      assert once[i] != ' ';
    }
  }

  /** `s` without its trailing run of `c`. */
  function TrimTrailing(s: string, c: char): (r: string)
    ensures |r| <= |s| && r == s[..|r|]
    ensures |r| == 0 || r[|r| - 1] != c
    ensures forall i :: |r| <= i < |s| ==> s[i] == c
  {
    if |s| > 0 && s[|s| - 1] == c then TrimTrailing(s[..|s| - 1], c) else s
  }

  /** The part of `s` after its last `c` (all of `s` if there is none). */
  function AfterLast(s: string, c: char): (r: string)
    ensures c !in r
    ensures |r| <= |s| && r == s[|s| - |r|..]
    ensures |r| < |s| ==> s[|s| - |r| - 1] == c
  {
    if |s| == 0 then ""
    else if s[|s| - 1] == c then ""
    else AfterLast(s[..|s| - 1], c) + [s[|s| - 1]]
  }

  /** `filepath.Base`: the last element of a slash-separated path, ignoring
      trailing slashes; "." for the empty path and "/" for a path of slashes. */
  function Base(path: string): (r: string)
    ensures |r| > 0
    ensures r == "/" || '/' !in r
    ensures path != "" && '/' !in path ==> r == path
  {
    if path == "" then "."
    else
      var t := TrimTrailing(path, '/');
      if t == "" then "/" else AfterLast(t, '/')
  }

  lemma {:induction false} AfterLastOfTail(p: string, c: char, u: string)
    requires c !in u
    ensures AfterLast(p + [c] + u, c) == u
    decreases |u|
  {
    var s := p + [c] + u;
    if |u| > 0 {
      var u' := u[..|u| - 1];
      assert s[..|s| - 1] == p + [c] + u';
      assert c !in u' by {
        forall i | 0 <= i < |u'| ensures u'[i] != c { assert u'[i] == u[i]; }
      }
      AfterLastOfTail(p, c, u');
      assert u' + [u[|u| - 1]] == u;
    } else {
      assert s[|s| - 1] == c;
    }
  }

  /** The base of `dir/name` is `name` for any plain name. */
  lemma BaseOfChild(dir: string, name: string)
    requires name != "" && '/' !in name
    ensures Base(dir + "/" + name) == name
  {
    var p := dir + "/" + name;
    assert p[|p| - 1] == name[|name| - 1];
    assert TrimTrailing(p, '/') == p;
    AfterLastOfTail(dir, '/', name);
  }
}
