/** The filesystem as the server observes it: a tree of named nodes, each
    carrying the outcome the operating system would give for it (a failed
    metadata query, a failed open, a read that faults part-way, a directory
    that cannot be listed), and the pre-order walk `filepath.Walk` makes of
    such a tree. */
module Fs {
  import opened Text

  newtype byte = b: int | 0 <= b < 256

  datatype Node =
      /** A regular file. `data` is what can be read from it; when `readFault`
          holds, the read after those bytes fails. */
    | File(name: string, openOk: bool, data: seq<byte>, readFault: bool)
      /** A directory; `listOk` is false when its entries cannot be read. */
    | Dir(name: string, listOk: bool, children: seq<Node>)
      /** An entry whose metadata query (stat) fails. */
    | Unreadable(name: string)

  /** A name that can stand as one element of a slash-separated path. */
  predicate PlainName(s: string)
  {
    s != "" && '/' !in s
  }

  /** Every name below a directory is plain and unique among its siblings,
      as in any real directory. */
  predicate WellFormed(n: Node)
  {
    match n
    case Dir(_, _, cs) =>
      && (forall i, j :: 0 <= i < j < |cs| ==> cs[i].name != cs[j].name)
      && (forall i :: 0 <= i < |cs| ==> PlainName(cs[i].name) && WellFormed(cs[i]))
    case _ => true
  }

  /** One call of the walk function: an entry reached without error, or an
      error reported for the entry at `at`. Positions are the list of names
      from the walked root. */
  datatype Step = Visit(at: seq<string>, node: Node) | Fail(at: seq<string>)

  /** `filepath.Rel(root, path)`: "." for the root itself, otherwise the
      names from the root joined with '/'. */
  function RelPath(at: seq<string>): (r: string)
    ensures at == [] ==> r == "."
    ensures |at| == 1 ==> r == at[0]
  {
    if at == [] then "." else Join(at, '/')
  }

  /** Below the root, the relative path gives back the names it was made of
      when none of them holds '/'. */
  lemma RelPathNames(at: seq<string>)
    requires at != [] && forall i :: 0 <= i < |at| ==> '/' !in at[i]
    ensures Split(RelPath(at), '/') == at
  {
    SplitJoin(at, '/');
  }

  /** The calls `filepath.Walk` makes of its function, in order: the entry
      itself, then (for a directory that can be listed) each child's walk in
      turn. A failed stat, or a directory whose listing fails, is reported by
      a single call with the error. Every call is for the entry or below it. */
  function Walk(n: Node, at: seq<string>): (steps: seq<Step>)
    ensures |steps| >= 1
    ensures n.File? ==> steps == [Visit(at, n)]
    ensures n.Unreadable? || (n.Dir? && !n.listOk) ==> steps == [Fail(at)]
    ensures n.Dir? && n.listOk ==> steps[0] == Visit(at, n)
    ensures forall i :: 0 <= i < |steps| ==> at <= steps[i].at
    decreases n
  {
    match n
    case File(_, _, _, _) => [Visit(at, n)]
    case Unreadable(_) => [Fail(at)]
    case Dir(_, listOk, cs) => if listOk then [Visit(at, n)] + WalkAll(cs, at) else [Fail(at)]
  }

  /** The walks of a directory's children in turn: every call is for an entry
      strictly below the directory. */
  function WalkAll(cs: seq<Node>, at: seq<string>): (steps: seq<Step>)
    ensures forall i :: 0 <= i < |steps| ==> at < steps[i].at
    decreases cs
  {
    if cs == [] then [] else Walk(cs[0], at + [cs[0].name]) + WalkAll(cs[1..], at)
  }
}
