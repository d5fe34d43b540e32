/**
 * The route-path builder of server/src/routing/Path.ts. A path starts at the
 * root "/" and grows one literal or parameter segment at a time; builders
 * return a new value, so the receiver is never altered.
 */
module Paths {

  datatype Path = Path(path: string)

  const Root: string := "/"

  /** `Path.start()`. */
  function Start(): (p: Path)
    ensures ToString(p) == "/"
  {
    Path(Root)
  }

  /** The root is replaced by "/x"; any other path gets "/x" appended. */
  function Append(p: Path, text: string): (r: Path)
    ensures p.path == Root ==> r.path == "/" + text
    ensures p.path != Root ==> r.path == p.path + "/" + text
  {
    if p.path == Root then Path("/" + text) else Path(p.path + "/" + text)
  }

  /** `literal(fragment)`: a fixed segment. */
  function Literal(p: Path, fragment: string): (r: Path)
    ensures ToString(r) == (if ToString(p) == "/" then "/" else ToString(p) + "/") + fragment
  {
    Append(p, fragment)
  }

  /** `param(name)`: an Express route parameter, written ":name". */
  function Param(p: Path, name: string): (r: Path)
    ensures ToString(r) == (if ToString(p) == "/" then "/:" else ToString(p) + "/:") + name
  {
    Append(p, ":" + name)
  }

  function ToString(p: Path): string {
    p.path
  }

  /** A route segment, as a caller lists them. */
  datatype Segment = Lit(fragment: string) | Par(name: string)

  function Text(s: Segment): (t: string)
    ensures s.Par? ==> |t| > 0 && t[0] == ':'
  {
    match s
    case Lit(f) => f
    case Par(n) => ":" + n
  }

  /** The builder call for one segment. */
  function Step(p: Path, s: Segment): Path
  {
    match s
    case Lit(f) => Literal(p, f)
    case Par(n) => Param(p, n)
  }

  /** The path a chain of builder calls produces, starting from `p`. */
  function Build(p: Path, segs: seq<Segment>): Path
    decreases |segs|
  {
    if |segs| == 0 then p else Build(Step(p, segs[0]), segs[1..])
  }

  /** Reference rendering: "/" alone, or "/" followed by each segment's text. */
  function Render(segs: seq<Segment>): string
    decreases |segs|
  {
    if |segs| == 0 then Root else Joined(segs)
  }

  function Joined(segs: seq<Segment>): string
    decreases |segs|
  {
    if |segs| == 0 then [] else "/" + Text(segs[0]) + Joined(segs[1..])
  }

  /** One segment below a non-root path gives a longer non-root path. */
  lemma StepBelow(p: Path, s: Segment)
    requires |p.path| > 0 && p.path != Root
    ensures Step(p, s).path == p.path + ("/" + Text(s))
    ensures |Step(p, s).path| > 1
  {
    assert p.path + "/" + Text(s) == p.path + ("/" + Text(s));
  }

  /** Building below a non-root path appends each segment behind a slash. */
  lemma {:induction false} BuildBelow(p: Path, segs: seq<Segment>)
    requires |p.path| > 0 && p.path != Root
    ensures Build(p, segs).path == p.path + Joined(segs)
    decreases |segs|
  {
    if |segs| > 0 {
      var head := "/" + Text(segs[0]);
      var next := Step(p, segs[0]);
      StepBelow(p, segs[0]);
      BuildBelow(next, segs[1..]);
      var rest := Joined(segs[1..]);
      assert Joined(segs) == head + rest;
      assert (p.path + head) + rest == p.path + (head + rest);
    }
  }

  /**
   * A chain from `start()` renders as the reference, provided the first
   * segment is not an empty literal: `start().literal("")` stays "/".
   */
  lemma BuildRenders(segs: seq<Segment>)
    requires |segs| == 0 || |Text(segs[0])| > 0
    ensures ToString(Build(Start(), segs)) == Render(segs)
  {
    if |segs| > 0 {
      var first := Step(Start(), segs[0]);
      assert first.path == "/" + Text(segs[0]) && |first.path| > 1;
      BuildBelow(first, segs[1..]);
      assert Joined(segs) == "/" + Text(segs[0]) + Joined(segs[1..]);
    }
  }

  /** An empty literal on the root leaves the root, so the reference rendering is not met. */
  lemma EmptyLiteralAtRoot()
    ensures Literal(Start(), "") == Start()
    ensures Render([Lit("")]) == "/" && Render([Lit(""), Lit("a")]) == "//a"
    ensures ToString(Build(Start(), [Lit(""), Lit("a")])) == "/a"
  {
    assert Joined([Lit(""), Lit("a")]) == "/" + "" + Joined([Lit("a")]);
  }

  /** A mixed chain of literals and parameters. */
  lemma MixedChain()
    ensures ToString(Param(Literal(Param(Literal(Start(), "entity"), "_id"), "count"), "count"))
            == "/entity/:_id/count/:count"
  {
  }
}
