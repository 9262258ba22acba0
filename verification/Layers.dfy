/** Image layers: applying tar entries to one directory tree, and what the result means.
 *
 *  A tree maps cleaned paths, as lists of components below the destination, to nodes. The empty
 *  path is the destination directory itself, which a bare `.wh.` entry at the top can remove.
 */
module Layers {
  import opened Text
  import opened Wrappers

  type Path = seq<string>

  datatype Node = Dir | File(content: string)

  type Tree = map<Path, Node>

  // ---------- Headers ----------

  datatype Kind = Directory | Regular(content: string)

  /** One step of the tar reader: a header with its content, or a read error. */
  datatype Header = Header(name: string, kind: Kind) | Unreadable

  /** What one header does to the tree. Broken ends the extraction with an error. */
  datatype Entry = AddDir(path: Path) | AddFile(path: Path, content: string) | Whiteout(path: Path) | Broken

  const NOT_EMPTY: string -> bool := s => s != ""
  const NOT_DOT: string -> bool := s => s != "" && s != "."

  /** The components of a name, without its empty segments and dots. */
  function Components(segments: seq<string>): Path {
    Filter(NOT_DOT, segments)
  }

  /** The last segment that is not empty: a name like "etc/" ends with "etc". */
  function LastSegment(segments: seq<string>): string {
    var named := Filter(NOT_EMPTY, segments);
    if named == [] then "." else named[|named| - 1]
  }

  /** filepath.Clean below the destination, for a name without "..". */
  function Clean(name: string): Path {
    Components(Split(name, '/'))
  }

  /** filepath.Base */
  function Base(name: string): string {
    LastSegment(Split(name, '/'))
  }

  function Parent(p: Path): Path {
    if p == [] then [] else p[..|p| - 1]
  }

  const WHITEOUT := ".wh."

  /** The entry of a header, or nothing for a name that the extraction skips. */
  function Decode(h: Header): Option<Entry> {
    if h.Unreadable? then Some(Broken)
    else if Contains(h.name, "..") then None
    else if HasPrefix(Base(h.name), WHITEOUT) then
      var target := Base(h.name)[|WHITEOUT|..];
      Some(Whiteout(Parent(Clean(h.name)) + if target == "" then [] else [target]))
    else match h.kind
      case Directory => Some(AddDir(Clean(h.name)))
      case Regular(content) => Some(AddFile(Clean(h.name), content))
  }

  function Entries(layer: seq<Header>): seq<Entry> {
    if layer == [] then []
    else
      var front := Entries(layer[..|layer| - 1]);
      match Decode(layer[|layer| - 1])
      case None => front
      case Some(e) => front + [e]
  }

  /** The opaque whiteout of the OCI layer format is skipped like any other name that holds "..". */
  lemma OpaqueWhiteoutIsSkipped(dir: string, kind: Kind)
    ensures Decode(Header(dir + "/.wh..wh..opq", kind)) == None
  {
    var name := dir + "/.wh..wh..opq";
    assert name[|dir| + 4..][..2] == "..";
    assert OccursAt(name, "..", |dir| + 4);
  }

  function AllDecoded(layers: seq<seq<Header>>): (r: seq<seq<Entry>>)
    ensures |r| == |layers|
    ensures forall i | 0 <= i < |layers| :: r[i] == Entries(layers[i])
  {
    seq(|layers|, i requires 0 <= i < |layers| => Entries(layers[i]))
  }

  /** A component of a cleaned path that is no whiteout and holds no "..". */
  predicate PlainComponent(c: string) {
    c != "" && c != "." && '/' !in c && !Contains(c, "..")
  }

  lemma DotsAt(s: string, i: nat)
    requires i <= |s|
    ensures OccursAt(s, "..", i) <==> i + 1 < |s| && s[i] == '.' && s[i + 1] == '.'
  {
    if i + 1 < |s| {
      assert s[i..][..2] == [s[i], s[i + 1]];
    }
  }

  lemma DotsAcross(a: string, b: string)
    requires !Contains(a, "..") && !Contains(b, "..")
    ensures !Contains(a + ['/'] + b, "..")
  {
    var s := a + ['/'] + b;
    forall i | 0 <= i <= |s|
      ensures !OccursAt(s, "..", i)
    {
      DotsAt(s, i);
      if i <= |a| {
        DotsAt(a, i);
      } else {
        DotsAt(b, i - |a| - 1);
      }
    }
  }

  /** A segment of a header's name: empty, ".", or a component. */
  predicate PlainSegment(c: string) {
    c == "" || c == "." || PlainComponent(c)
  }

  lemma {:induction false} JoinedSegments(segments: seq<string>)
    requires segments != [] && forall c | c in segments :: PlainSegment(c)
    ensures !Contains(Join(segments, '/'), "..") && Split(Join(segments, '/'), '/') == segments
  {
    assert segments[0] in segments;
    forall c | c in segments
      ensures '/' !in c && !Contains(c, "..")
    {
      assert !Contains("", "..") && !Contains(".", "..");
    }
    SplitJoin(segments, '/');
    if |segments| > 1 {
      JoinedSegments(segments[1..]);
      DotsAcross(segments[0], Join(segments[1..], '/'));
    }
  }

  /** A last segment that is a component is the last component. */
  lemma {:induction false} LastIsComponent(segments: seq<string>)
    requires LastSegment(segments) != "."
    ensures var p := Components(segments); p != [] && p[|p| - 1] == LastSegment(segments)
  {
    if segments != [] {
      var rest := segments[1..];
      if Filter(NOT_EMPTY, rest) != [] {
        LastIsComponent(rest);
      } else {
        FilterNone(NOT_DOT, rest);
      }
    }
  }

  /** A name of plain segments, as in "etc/passwd", "./etc/" or "/etc//passwd", decodes to the path of its components;
   *  one whose last segment is a whiteout name, to the path that it marks. */
  lemma DecodeOfPath(segments: seq<string>, kind: Kind)
    requires segments != [] && forall c | c in segments :: PlainSegment(c)
    ensures var p, base := Components(segments), LastSegment(segments);
            Decode(Header(Join(segments, '/'), kind)) ==
            Some(if HasPrefix(base, WHITEOUT) then Whiteout(Parent(p) + if base == WHITEOUT then [] else [base[4..]])
                 else if kind.Directory? then AddDir(p) else AddFile(p, kind.content))
    ensures HasPrefix(LastSegment(segments), WHITEOUT) ==>
              var p := Components(segments); p != [] && p[|p| - 1] == LastSegment(segments)
  {
    JoinedSegments(segments);
    if HasPrefix(LastSegment(segments), WHITEOUT) {
      LastIsComponent(segments);
    }
  }

  /** A name of plain components names their path; a whiteout, the path with the prefix off its last component. */
  lemma DecodeOfComponents(p: Path, kind: Kind)
    requires p != [] && forall c | c in p :: PlainComponent(c)
    ensures var dir, base := p[..|p| - 1], p[|p| - 1];
            Decode(Header(Join(p, '/'), kind)) ==
            Some(if |base| >= 4 && base[..4] == ".wh." then Whiteout(dir + if |base| == 4 then [] else [base[4..]])
                 else if kind.Directory? then AddDir(p) else AddFile(p, kind.content))
  {
    DecodeOfPath(p, kind);
    FilterAll(NOT_EMPTY, p);
    FilterAll(NOT_DOT, p);
  }

  lemma {:induction false} FilterOne(keep: string -> bool, front: seq<string>, c: string, back: seq<string>)
    requires !keep(c)
    ensures Filter(keep, front + [c] + back) == Filter(keep, front + back)
  {
    FilterConcat(keep, front + [c], back);
    FilterConcat(keep, front, [c]);
    FilterConcat(keep, front, back);
    assert [c][1..] == [];
  }

  lemma {:induction false} LastOfConcat(front: seq<string>, back: seq<string>)
    requires exists c | c in back :: c != ""
    ensures LastSegment(front + back) == LastSegment(back)
  {
    FilterConcat(NOT_EMPTY, front, back);
    assert Filter(NOT_EMPTY, back) != [];
  }

  lemma PaddedParts(front: seq<string>, pad: string, back: seq<string>)
    requires pad == "" || (pad == "." && exists c | c in back :: c != "")
    ensures Components(front + [pad] + back) == Components(front + back)
    ensures LastSegment(front + [pad] + back) == LastSegment(front + back)
  {
    FilterOne(NOT_DOT, front, pad, back);
    if pad == "" {
      FilterOne(NOT_EMPTY, front, pad, back);
    } else {
      LastOfConcat(front + [pad], back);
      LastOfConcat(front, back);
    }
  }

  /** An empty segment anywhere in a name, or a "." before a segment that is not empty, does not matter: "./etc//passwd"
   *  is "etc/passwd". */
  lemma PaddingDoesNotMatter(front: seq<string>, pad: string, back: seq<string>, kind: Kind)
    requires front + back != [] && forall c | c in front + back :: PlainSegment(c)
    requires pad == "" || (pad == "." && exists c | c in back :: c != "")
    ensures Decode(Header(Join(front + [pad] + back, '/'), kind)) == Decode(Header(Join(front + back, '/'), kind))
  {
    forall c | c in front + [pad] + back
      ensures PlainSegment(c)
    {
      assert c == pad || c in front + back;
    }
    PaddedParts(front, pad, back);
    DecodeOfPath(front + [pad] + back, kind);
    DecodeOfPath(front + back, kind);
  }

  // ---------- One entry ----------

  predicate Adds(e: Entry) {
    e.AddDir? || e.AddFile?
  }

  function Ancestry(p: Path): (ps: set<Path>)
    ensures forall q :: q in ps <==> q <= p
  {
    var ps := set i | 0 <= i <= |p| :: p[..i];
    assert forall q | q <= p :: q == p[..|q|];
    ps
  }

  /** os.MkdirAll: fails when a file stands where a directory is needed. */
  function MkdirAll(t: Tree, p: Path): Option<Tree> {
    if exists q | q in Ancestry(p) && q in t :: t[q].File? then None
    else Some(map q | q in t.Keys + Ancestry(p) :: if q <= p then Dir else t[q])
  }

  /** os.MkdirAll of the parent, then os.OpenFile with O_CREATE and O_TRUNC. */
  function WriteFile(t: Tree, p: Path, content: string): Option<Tree> {
    var made := if p == [] then Some(t) else MkdirAll(t, Parent(p));
    if made.None? then None
    else if p in made.value && made.value[p].Dir? then None
    else Some(made.value[p := File(content)])
  }

  /** os.RemoveAll */
  function RemoveAll(t: Tree, w: Path): Tree {
    map q | q in t && !(w <= q) :: t[q]
  }

  function Apply(t: Tree, e: Entry): Option<Tree> {
    match e
    case AddDir(p) => MkdirAll(t, p)
    case AddFile(p, content) => WriteFile(t, p, content)
    case Whiteout(w) => Some(RemoveAll(t, w))
    case Broken => None
  }

  function ApplyAll(t: Tree, es: seq<Entry>): Option<Tree> {
    if es == [] then Some(t)
    else match ApplyAll(t, es[..|es| - 1])
      case None => None
      case Some(u) => Apply(u, es[|es| - 1])
  }

  lemma {:induction false} ApplyAllConcat(t: Tree, es: seq<Entry>, fs: seq<Entry>)
    ensures ApplyAll(t, es + fs) ==
            match ApplyAll(t, es) case None => None case Some(u) => ApplyAll(u, fs)
  {
    if fs == [] {
      assert es + fs == es;
    } else {
      assert (es + fs)[..|es + fs| - 1] == es + fs[..|fs| - 1];
      ApplyAllConcat(t, es, fs[..|fs| - 1]);
    }
  }

  /** Every ancestor of a node is a directory of the tree. */
  ghost predicate PrefixClosed(t: Tree) {
    forall p, q | p in t && q < p :: q in t && t[q].Dir?
  }

  lemma ApplyKeepsPrefixClosed(t: Tree, e: Entry)
    requires PrefixClosed(t) && Apply(t, e).Some?
    ensures PrefixClosed(Apply(t, e).value)
  {
    var u := Apply(t, e).value;
    forall p, q | p in u && q < p
      ensures q in u && u[q].Dir?
    {
      match e
      case AddDir(a) =>
      case Whiteout(w) =>
      case AddFile(a, content) =>
        if a != [] {
          assert q < a ==> q <= Parent(a);
        }
    }
  }

  lemma {:induction false} ExtractionKeepsPrefixClosed(t: Tree, es: seq<Entry>, k: nat)
    requires PrefixClosed(t) && k <= |es| && ApplyAll(t, es[..k]).Some?
    ensures PrefixClosed(ApplyAll(t, es[..k]).value)
  {
    if k > 0 {
      assert es[..k][..k - 1] == es[..k - 1];
      ExtractionKeepsPrefixClosed(t, es, k - 1);
      ApplyKeepsPrefixClosed(ApplyAll(t, es[..k - 1]).value, es[k - 1]);
    }
  }

  // ---------- What one entry means at one path ----------

  datatype Effect = Keep | Put(node: Node) | Erase

  function At(e: Entry, p: Path): Effect {
    match e
    case AddDir(q) => if p <= q then Put(Dir) else Keep
    case AddFile(q, content) => if p == q then Put(File(content)) else if p <= q then Put(Dir) else Keep
    case Whiteout(w) => if w <= p then Erase else Keep
    case Broken => Keep
  }

  function Over(effect: Effect, below: Option<Node>): Option<Node> {
    match effect
    case Keep => below
    case Put(n) => Some(n)
    case Erase => None
  }

  function Lookup(t: Tree, p: Path): Option<Node> {
    if p in t then Some(t[p]) else None
  }

  lemma SameLookups(t: Tree, u: Tree)
    requires forall p :: Lookup(t, p) == Lookup(u, p)
    ensures t == u
  {
    forall p
      ensures p in t <==> p in u
      ensures p in t ==> t[p] == u[p]
    {
      assert Lookup(t, p) == Lookup(u, p);
    }
  }

  lemma ApplyAt(t: Tree, e: Entry, p: Path)
    requires Apply(t, e).Some?
    ensures Lookup(Apply(t, e).value, p) == Over(At(e, p), Lookup(t, p))
  {
    if e.AddFile? && e.path != [] {
      assert p < e.path <==> p <= Parent(e.path);
    }
  }

  /** The effect of the last entry that concerns the path. */
  function LastAt(es: seq<Entry>, p: Path): Effect {
    if es == [] then Keep
    else if At(es[|es| - 1], p) != Keep then At(es[|es| - 1], p)
    else LastAt(es[..|es| - 1], p)
  }

  /** A successful extraction: at every path the last entry that concerns it decides. */
  lemma {:induction false} ApplyAllAt(t: Tree, es: seq<Entry>, p: Path)
    requires ApplyAll(t, es).Some?
    ensures Lookup(ApplyAll(t, es).value, p) == Over(LastAt(es, p), Lookup(t, p))
  {
    if es != [] {
      var front := es[..|es| - 1];
      ApplyAllAt(t, front, p);
      ApplyAt(ApplyAll(t, front).value, es[|es| - 1], p);
    }
  }

  // ---------- Layered lookup ----------

  /** What a layer holds at a path: the last entry that adds something there. */
  function Held(es: seq<Entry>, p: Path): Option<Node> {
    if es == [] then None
    else if At(es[|es| - 1], p).Put? then Some(At(es[|es| - 1], p).node)
    else Held(es[..|es| - 1], p)
  }

  /** A layer hides what lower layers hold at and below each of its whiteouts. */
  predicate Hides(es: seq<Entry>, p: Path) {
    exists i | 0 <= i < |es| :: At(es[i], p).Erase?
  }

  function Overlay(es: seq<Entry>, p: Path, below: Option<Node>): Option<Node> {
    if Held(es, p).Some? then Held(es, p)
    else if Hides(es, p) then None
    else below
  }

  /** Top-down lookup through a stack of layers, the last one topmost, over an empty root. */
  function LayeredLookup(layers: seq<seq<Entry>>, p: Path): Option<Node> {
    if layers == [] then (if p == [] then Some(Dir) else None)
    else Overlay(layers[|layers| - 1], p, LayeredLookup(layers[..|layers| - 1], p))
  }

  predicate Covers(w: Entry, e: Entry) {
    w.Whiteout? && Adds(e) && w.path <= e.path
  }

  predicate AddsUnder(e: Entry, p: Path) {
    Adds(e) && p <= e.path
  }

  /** No addition is lost to a later whiteout of its own layer. */
  predicate Settled(es: seq<Entry>) {
    forall i, j | 0 <= i < j < |es| && Covers(es[j], es[i]) ::
      exists k | j < k < |es| :: AddsUnder(es[k], es[i].path)
  }

  lemma {:induction false} HeldIffAdded(es: seq<Entry>, p: Path)
    ensures Held(es, p).Some? <==> exists i | 0 <= i < |es| :: AddsUnder(es[i], p)
  {
    if es != [] {
      var front := es[..|es| - 1];
      HeldIffAdded(front, p);
      assert forall i | 0 <= i < |front| :: AddsUnder(es[i], p) == AddsUnder(front[i], p);
      if exists i | 0 <= i < |es| :: AddsUnder(es[i], p) {
        var i :| 0 <= i < |es| && AddsUnder(es[i], p);
        if i < |front| {
          assert AddsUnder(front[i], p);
        }
      }
    }
  }

  /** Where the last effect is an addition or nothing, it agrees with the overlay; an erasure names its whiteout. */
  lemma {:induction false} LastAtCases(es: seq<Entry>, p: Path) returns (j: int)
    ensures LastAt(es, p).Keep? ==> Held(es, p).None? && !Hides(es, p)
    ensures LastAt(es, p).Put? ==> Held(es, p) == Some(LastAt(es, p).node)
    ensures LastAt(es, p).Erase? ==> 0 <= j < |es| && At(es[j], p).Erase? &&
                                     forall k | j < k < |es| :: !AddsUnder(es[k], p)
  {
    j := -1;
    if es != [] {
      var front := es[..|es| - 1];
      if At(es[|es| - 1], p) != Keep {
        j := |es| - 1;
      } else {
        j := LastAtCases(front, p);
        assert forall k | 0 <= k < |front| :: es[k] == front[k];
      }
    }
  }

  lemma NothingHeld(es: seq<Entry>, p: Path, j: nat)
    requires Settled(es) && j < |es| && At(es[j], p).Erase?
    requires forall k | j < k < |es| :: !AddsUnder(es[k], p)
    ensures Held(es, p).None?
  {
    HeldIffAdded(es, p);
    forall i | 0 <= i < |es|
      ensures !AddsUnder(es[i], p)
    {
      if i < j && Covers(es[j], es[i]) {
        var k :| j < k < |es| && AddsUnder(es[k], es[i].path);
        assert !AddsUnder(es[k], p);
      }
    }
  }

  lemma SettledAgrees(t: Tree, es: seq<Entry>, u: Tree, p: Path)
    requires ApplyAll(t, es) == Some(u) && Settled(es)
    ensures Lookup(u, p) == Overlay(es, p, Lookup(t, p))
  {
    ApplyAllAt(t, es, p);
    var j := LastAtCases(es, p);
    if LastAt(es, p).Erase? {
      NothingHeld(es, p, j);
      assert Hides(es, p);
    }
  }

  lemma {:induction false} ErasedFrom(es: seq<Entry>, p: Path, j: nat)
    requires j < |es| && At(es[j], p).Erase?
    requires forall k | j < k < |es| :: !AddsUnder(es[k], p)
    ensures LastAt(es, p).Erase?
  {
    var front := es[..|es| - 1];
    if j < |front| {
      assert !AddsUnder(es[|es| - 1], p);
      ErasedFrom(front, p, j);
    }
  }

  lemma UnsettledDisagrees(t: Tree, es: seq<Entry>, u: Tree) returns (p: Path)
    requires ApplyAll(t, es) == Some(u) && !Settled(es)
    ensures Lookup(u, p) != Overlay(es, p, Lookup(t, p))
  {
    var i, j :| 0 <= i < j < |es| && Covers(es[j], es[i]) && forall k | j < k < |es| :: !AddsUnder(es[k], es[i].path);
    p := es[i].path;
    ApplyAllAt(t, es, p);
    HeldIffAdded(es, p);
    assert AddsUnder(es[i], p);
    ErasedFrom(es, p, j);
  }

  /** One successful extraction agrees with the overlay of the layer at every path exactly when the layer is settled. */
  lemma LayerMeaning(t: Tree, es: seq<Entry>, u: Tree)
    requires ApplyAll(t, es) == Some(u)
    ensures (forall p :: Lookup(u, p) == Overlay(es, p, Lookup(t, p))) <==> Settled(es)
  {
    if Settled(es) {
      forall p
        ensures Lookup(u, p) == Overlay(es, p, Lookup(t, p))
      {
        SettledAgrees(t, es, u, p);
      }
    } else {
      var p := UnsettledDisagrees(t, es, u);
    }
  }

  // ---------- A stack of layers ----------

  const ROOT: Tree := map[[] := Dir]

  function ApplyLayers(t: Tree, layers: seq<seq<Entry>>): Option<Tree> {
    if layers == [] then Some(t)
    else match ApplyLayers(t, layers[..|layers| - 1])
      case None => None
      case Some(u) => ApplyAll(u, layers[|layers| - 1])
  }

  /** All entries of all layers, in extraction order. */
  function AllEntries(layers: seq<seq<Entry>>): seq<Entry> {
    if layers == [] then [] else AllEntries(layers[..|layers| - 1]) + layers[|layers| - 1]
  }

  /** Extracting layer by layer is extracting one list of entries. */
  lemma {:induction false} LayersAreOneList(t: Tree, layers: seq<seq<Entry>>)
    ensures ApplyLayers(t, layers) == ApplyAll(t, AllEntries(layers))
  {
    if layers != [] {
      LayersAreOneList(t, layers[..|layers| - 1]);
      ApplyAllConcat(t, AllEntries(layers[..|layers| - 1]), layers[|layers| - 1]);
    }
  }

  /** The layer adds something at the path and whites it out for good. */
  predicate Lost(es: seq<Entry>, p: Path) {
    LastAt(es, p).Erase? && Held(es, p).Some?
  }

  /** The layer holds something at the path, or hides what is below it. */
  predicate Speaks(es: seq<Entry>, p: Path) {
    Held(es, p).Some? || Hides(es, p)
  }

  /** Above every layer that loses what it adds at the path, another layer decides. */
  predicate Overruled(layers: seq<seq<Entry>>, p: Path) {
    forall i | 0 <= i < |layers| && Lost(layers[i], p) :: exists j | i < j < |layers| :: Speaks(layers[j], p)
  }

  /** One more layer on top: it settles the question, or leaves it open. */
  lemma OverruledBy(layers: seq<seq<Entry>>, p: Path)
    requires layers != []
    ensures var front, top := layers[..|layers| - 1], layers[|layers| - 1];
            Overruled(layers, p) <==> if Speaks(top, p) then !Lost(top, p) else Overruled(front, p)
  {
    var front, top := layers[..|layers| - 1], layers[|layers| - 1];
    assert Lost(top, p) ==> Speaks(top, p);
    assert forall i | 0 <= i < |front| :: front[i] == layers[i];
    if !Speaks(top, p) && Overruled(layers, p) {
      forall i | 0 <= i < |front| && Lost(front[i], p)
        ensures exists j | i < j < |front| :: Speaks(front[j], p)
      {
        var j :| i < j < |layers| && Speaks(layers[j], p);
        assert front[j] == layers[j];
      }
    }
  }

  lemma {:induction false} FlattenAt(layers: seq<seq<Entry>>, u: Tree, p: Path)
    requires ApplyLayers(ROOT, layers) == Some(u)
    ensures Lookup(u, p) == LayeredLookup(layers, p) <==> Overruled(layers, p)
  {
    if layers != [] {
      var front, top := layers[..|layers| - 1], layers[|layers| - 1];
      var below := ApplyLayers(ROOT, front).value;
      FlattenAt(front, below, p);
      ApplyAllAt(below, top, p);
      var _ := LastAtCases(top, p);
      OverruledBy(layers, p);
    }
  }

  /** On every stack of layers that extracts, flattening preserves meaning at every path exactly when above every layer
   *  that loses an addition of its own another layer decides. */
  lemma FlattenExactly(layers: seq<seq<Entry>>, u: Tree)
    requires ApplyLayers(ROOT, layers) == Some(u)
    ensures (forall p :: Lookup(u, p) == LayeredLookup(layers, p)) <==> (forall p :: Overruled(layers, p))
  {
    forall p
      ensures Lookup(u, p) == LayeredLookup(layers, p) <==> Overruled(layers, p)
    {
      FlattenAt(layers, u, p);
    }
  }

  /** So flattening preserves the meaning of every stack of settled layers. */
  lemma FlattenMeaning(layers: seq<seq<Entry>>, u: Tree, p: Path)
    requires ApplyLayers(ROOT, layers) == Some(u)
    requires forall es | es in layers :: Settled(es)
    ensures Lookup(u, p) == LayeredLookup(layers, p)
  {
    forall i | 0 <= i < |layers|
      ensures !Lost(layers[i], p)
    {
      var es := layers[i];
      assert es in layers;
      var j := LastAtCases(es, p);
      if LastAt(es, p).Erase? {
        NothingHeld(es, p, j);
      }
    }
    FlattenAt(layers, u, p);
  }

  // ---------- Order inside a layer ----------

  predicate Compatible(a: Entry, b: Entry) {
    && !Covers(a, b)
    && !Covers(b, a)
    && (a.AddFile? && b.AddFile? && a.path == b.path ==> a.content == b.content)
  }

  /** No whiteout covers an addition, and no path gets two contents. */
  predicate WellFormed(es: seq<Entry>) {
    forall a, b | a in es && b in es :: Compatible(a, b)
  }

  lemma WellFormedIsSettled(es: seq<Entry>)
    requires WellFormed(es)
    ensures Settled(es)
  {
    assert forall i, j | 0 <= i < j < |es| :: Compatible(es[j], es[i]);
  }

  function Then(t: Option<Tree>, e: Entry): Option<Tree> {
    if t.None? then None else Apply(t.value, e)
  }

  /** When Apply rejects an entry, said without the intermediate tree. */
  predicate Rejects(t: Tree, e: Entry) {
    match e
    case AddDir(p) => exists q | q in Ancestry(p) && q in t :: t[q].File?
    case AddFile(p, _) => (exists q | q in Ancestry(p) && q in t :: q != p && t[q].File?) || (p in t && t[p].Dir?)
    case Whiteout(_) => false
    case Broken => true
  }

  lemma RejectsIffNone(t: Tree, e: Entry)
    ensures Rejects(t, e) <==> Apply(t, e).None?
  {
    if e.AddFile? && e.path != [] {
      assert forall q :: q in Ancestry(Parent(e.path)) <==> q in Ancestry(e.path) && q != e.path;
    }
  }

  /** What the entries so far leave at a path. */
  function Seen(t: Tree, es: seq<Entry>, p: Path): Option<Node> {
    Over(LastAt(es, p), Lookup(t, p))
  }

  /** The next entry can be extracted: no file stands where it needs a directory, and no directory where it needs a
   *  file. */
  ghost predicate Fits(t: Tree, es: seq<Entry>, e: Entry) {
    match e
    case AddDir(p) => forall q | q <= p :: Seen(t, es, q).Some? ==> Seen(t, es, q).value.Dir?
    case AddFile(p, _) =>
      && (forall q | q < p :: Seen(t, es, q).Some? ==> Seen(t, es, q).value.Dir?)
      && Seen(t, es, p) != Some(Dir)
    case Whiteout(_) => true
    case Broken => false
  }

  lemma FitsIffApplies(t: Tree, es: seq<Entry>, e: Entry)
    requires ApplyAll(t, es).Some?
    ensures Apply(ApplyAll(t, es).value, e).Some? <==> Fits(t, es, e)
  {
    var u := ApplyAll(t, es).value;
    RejectsIffNone(u, e);
    forall q
      ensures Lookup(u, q) == Seen(t, es, q)
    {
      ApplyAllAt(t, es, q);
    }
    if Adds(e) && Rejects(u, e) {
      if !(e.AddFile? && e.path in u && u[e.path].Dir?) {
        var q :| q in Ancestry(e.path) && q in u && u[q].File? && (e.AddFile? ==> q != e.path);
        assert Lookup(u, q) == Seen(t, es, q);
      }
    } else if Adds(e) {
      forall q | q <= e.path && Seen(t, es, q).Some? && (e.AddFile? ==> q != e.path)
        ensures Seen(t, es, q).value.Dir?
      {
        assert q in Ancestry(e.path) && Lookup(u, q) == Seen(t, es, q);
      }
    }
  }

  /** An extraction succeeds exactly when every entry fits what the entries before it leave. */
  lemma {:induction false} ExtractsExactly(t: Tree, es: seq<Entry>)
    ensures ApplyAll(t, es).Some? <==> forall k | 0 <= k < |es| :: Fits(t, es[..k], es[k])
  {
    if es != [] {
      var front, last := es[..|es| - 1], es[|es| - 1];
      ExtractsExactly(t, front);
      forall k | 0 <= k < |front|
        ensures Fits(t, front[..k], front[k]) == Fits(t, es[..k], es[k])
      {
        assert front[..k] == es[..k] && front[k] == es[k];
      }
      if ApplyAll(t, front).Some? {
        FitsIffApplies(t, front, last);
      }
    }
  }

  /** A file entry at or above an entry that needs a directory there. */
  predicate Clash(f: Entry, e: Entry) {
    f.AddFile? && Adds(e) && f.path <= e.path && !(e.AddFile? && e.path == f.path)
  }

  /** After a compatible entry, an entry is rejected exactly when it or the conflict of the two says so. */
  lemma RejectedAfter(t: Tree, a: Entry, b: Entry)
    requires Compatible(a, b) && !Rejects(t, a) && !Rejects(t, b)
    ensures Apply(t, a).Some?
    ensures Rejects(Apply(t, a).value, b) <==> Clash(a, b) || Clash(b, a)
  {
    RejectsIffNone(t, a);
    var u := Apply(t, a).value;
    forall p
      ensures Lookup(u, p) == Over(At(a, p), Lookup(t, p))
    {
      ApplyAt(t, a, p);
    }
    if Adds(b) {
      forall q | q <= b.path
        ensures (q in u && u[q].File?) <==>
                (if At(a, q).Put? then At(a, q).node.File? else q in t && t[q].File?)
        ensures (q in u && u[q].Dir?) <==>
                (if At(a, q).Put? then At(a, q).node.Dir? else q in t && t[q].Dir?)
      {
        assert Lookup(u, q) == Over(At(a, q), Lookup(t, q));
        assert !At(a, q).Erase?;
      }
      if Clash(a, b) {
        assert a.path in Ancestry(b.path);
      }
    }
  }

  /** What rejects an entry is not repaired by a compatible entry that comes first. */
  lemma StillRejected(t: Tree, a: Entry, b: Entry)
    requires Compatible(a, b) && Rejects(t, a)
    ensures Then(Apply(t, b), a) == None
  {
    RejectsIffNone(t, b);
    if Apply(t, b).Some? {
      var u := Apply(t, b).value;
      forall p
        ensures Lookup(u, p) == Over(At(b, p), Lookup(t, p))
      {
        ApplyAt(t, b, p);
      }
      if a.AddDir? || (a.AddFile? && !(a.path in t && t[a.path].Dir?)) {
        var q :| q in Ancestry(a.path) && q in t && t[q].File? && (a.AddFile? ==> q != a.path);
        assert Lookup(u, q) == Over(At(b, q), Lookup(t, q));
      } else if a.AddFile? {
        assert Lookup(u, a.path) == Over(At(b, a.path), Lookup(t, a.path));
      }
      RejectsIffNone(u, a);
    }
  }

  lemma Commute(t: Tree, a: Entry, b: Entry)
    requires Compatible(a, b)
    ensures Then(Apply(t, a), b) == Then(Apply(t, b), a)
  {
    RejectsIffNone(t, a);
    RejectsIffNone(t, b);
    if Rejects(t, a) {
      StillRejected(t, a, b);
    } else if Rejects(t, b) {
      StillRejected(t, b, a);
    } else {
      RejectedAfter(t, a, b);
      RejectedAfter(t, b, a);
      var ta, tb := Apply(t, a).value, Apply(t, b).value;
      RejectsIffNone(ta, b);
      RejectsIffNone(tb, a);
      if !Clash(a, b) && !Clash(b, a) {
        var tab, tba := Apply(ta, b).value, Apply(tb, a).value;
        forall p
          ensures Lookup(tab, p) == Lookup(tba, p)
        {
          ApplyAt(t, a, p);
          ApplyAt(t, b, p);
          ApplyAt(ta, b, p);
          ApplyAt(tb, a, p);
        }
        SameLookups(tab, tba);
      }
    }
  }

  lemma Snoc(t: Tree, es: seq<Entry>, e: Entry)
    ensures ApplyAll(t, es + [e]) == Then(ApplyAll(t, es), e)
  {
    assert (es + [e])[..|es|] == es;
  }

  lemma CommuteAfter(t: Tree, es: seq<Entry>, a: Entry, b: Entry)
    requires Compatible(a, b)
    ensures ApplyAll(t, es + [a] + [b]) == ApplyAll(t, es + [b] + [a])
  {
    Snoc(t, es, a);
    Snoc(t, es, b);
    Snoc(t, es + [a], b);
    Snoc(t, es + [b], a);
    if ApplyAll(t, es).Some? {
      Commute(ApplyAll(t, es).value, a, b);
    }
  }

  /** An entry may move behind entries it is compatible with. */
  lemma {:induction false} MoveLast(t: Tree, x: Entry, post: seq<Entry>)
    requires forall e | e in post :: Compatible(x, e)
    ensures ApplyAll(t, [x] + post) == ApplyAll(t, post + [x])
    decreases |post|
  {
    if post == [] {
      assert [x] + post == post + [x];
    } else {
      var front, z := post[..|post| - 1], post[|post| - 1];
      assert [x] + post == [x] + front + [z];
      assert post + [x] == front + [z] + [x];
      MoveLast(t, x, front);
      Snoc(t, [x] + front, z);
      Snoc(t, front + [x], z);
      CommuteAfter(t, front, x, z);
    }
  }

  lemma MoveToEnd(t: Tree, pre: seq<Entry>, x: Entry, post: seq<Entry>)
    requires forall e | e in post :: Compatible(x, e)
    ensures ApplyAll(t, pre + [x] + post) == ApplyAll(t, pre + post + [x])
  {
    ApplyAllConcat(t, pre, [x] + post);
    ApplyAllConcat(t, pre, post + [x]);
    if ApplyAll(t, pre).Some? {
      MoveLast(ApplyAll(t, pre).value, x, post);
    }
    assert pre + [x] + post == pre + ([x] + post);
    assert pre + post + [x] == pre + (post + [x]);
  }

  predicate SameEntries(es: seq<Entry>, fs: seq<Entry>) {
    multiset(es) == multiset(fs)
  }

  lemma Cancel(a: multiset<Entry>, b: multiset<Entry>, x: Entry)
    requires a + multiset{x} == b + multiset{x}
    ensures a == b
  {
    forall e
      ensures a[e] == b[e]
    {
      assert (a + multiset{x})[e] == (b + multiset{x})[e];
    }
  }

  lemma TakeOut(front: seq<Entry>, x: Entry, fs: seq<Entry>) returns (pre: seq<Entry>, post: seq<Entry>)
    requires SameEntries(front + [x], fs)
    ensures fs == pre + [x] + post
    ensures SameEntries(front, pre + post)
    ensures forall e | e in post :: e in front
  {
    assert x in multiset(front + [x]);
    var i :| 0 <= i < |fs| && fs[i] == x;
    pre, post := fs[..i], fs[i + 1..];
    assert fs == pre + [x] + post;
    Cancel(multiset(front), multiset(pre + post), x) by {
      assert multiset(fs) == multiset(pre) + multiset{x} + multiset(post);
      assert multiset(front + [x]) == multiset(front) + multiset{x};
    }
    forall e | e in post
      ensures e in front
    {
      assert e in multiset(pre + post);
    }
  }

  /** Any order of a well-formed layer has the same outcome and the same tree. */
  lemma {:induction false} AnyOrder(t: Tree, es: seq<Entry>, fs: seq<Entry>)
    requires WellFormed(es) && SameEntries(es, fs)
    ensures ApplyAll(t, es) == ApplyAll(t, fs)
  {
    if es == [] {
      assert |multiset(fs)| == 0;
    } else {
      var front, x := es[..|es| - 1], es[|es| - 1];
      assert es == front + [x];
      var pre, post := TakeOut(front, x, fs);
      MoveToEnd(t, pre, x, post);
      AnyOrder(t, front, pre + post);
      Snoc(t, front, x);
      Snoc(t, pre + post, x);
    }
  }

  lemma Rotate(es: seq<Entry>, x: Entry) returns (fs: seq<Entry>)
    requires x in es
    ensures fs != [] && fs[|fs| - 1] == x && SameEntries(es, fs)
  {
    var i :| 0 <= i < |es| && es[i] == x;
    fs := es[..i] + es[i + 1..] + [x];
    assert es == es[..i] + [x] + es[i + 1..];
  }

  /** For a layer that extracts: order does not matter exactly when the layer is well-formed. */
  lemma OrderIndependence(t: Tree, es: seq<Entry>, u: Tree)
    requires ApplyAll(t, es) == Some(u)
    ensures (forall fs | SameEntries(es, fs) :: ApplyAll(t, fs) == Some(u)) <==> WellFormed(es)
  {
    if WellFormed(es) {
      forall fs | SameEntries(es, fs)
        ensures ApplyAll(t, fs) == Some(u)
      {
        AnyOrder(t, es, fs);
      }
    } else {
      var a, b :| a in es && b in es && !Compatible(a, b);
      var fa := Rotate(es, a);
      var fb := Rotate(es, b);
      if ApplyAll(t, fa) == Some(u) && ApplyAll(t, fb) == Some(u) {
        var p := if a.Whiteout? then b.path else a.path;
        ApplyAllAt(t, fa, p);
        ApplyAllAt(t, fb, p);
        assert false;
      }
    }
  }

  // ---------- The extraction loop ----------

  /** One more header: its entry, if it has one, is applied last. */
  lemma EntriesStep(t: Tree, layer: seq<Header>, i: nat)
    requires i < |layer|
    ensures ApplyAll(t, Entries(layer[..i + 1])) ==
            if Decode(layer[i]).None? then ApplyAll(t, Entries(layer[..i]))
            else Then(ApplyAll(t, Entries(layer[..i])), Decode(layer[i]).value)
  {
    assert layer[..i + 1][..i] == layer[..i];
    if Decode(layer[i]).Some? {
      Snoc(t, Entries(layer[..i]), Decode(layer[i]).value);
    }
  }

  lemma LayersStep(t: Tree, layers: seq<seq<Entry>>, i: nat)
    requires i < |layers|
    ensures ApplyLayers(t, layers[..i + 1]) ==
            match ApplyLayers(t, layers[..i]) case None => None case Some(u) => ApplyAll(u, layers[i])
  {
    assert layers[..i + 1][..i] == layers[..i];
  }

  lemma {:induction false} FailureIsFinal(t: Tree, layer: seq<Header>, i: nat)
    requires i <= |layer| && ApplyAll(t, Entries(layer[..i])).None?
    ensures ApplyAll(t, Entries(layer)).None?
    decreases |layer| - i
  {
    if i == |layer| {
      assert layer[..i] == layer;
    } else {
      EntriesStep(t, layer, i);
      FailureIsFinal(t, layer, i + 1);
    }
  }

  /** A read error ends the extraction of its layer. */
  lemma UnreadableFails(t: Tree, layer: seq<Header>)
    ensures Unreadable in layer ==> ApplyAll(t, Entries(layer)).None?
  {
    if Unreadable in layer {
      var i :| 0 <= i < |layer| && layer[i] == Unreadable;
      EntriesStep(t, layer, i);
      FailureIsFinal(t, layer, i + 1);
    }
  }

  lemma {:induction false} LayerFailureIsFinal(t: Tree, layers: seq<seq<Entry>>, i: nat)
    requires i <= |layers| && ApplyLayers(t, layers[..i]).None?
    ensures ApplyLayers(t, layers).None?
    decreases |layers| - i
  {
    if i == |layers| {
      assert layers[..i] == layers;
    } else {
      LayersStep(t, layers, i);
      LayerFailureIsFinal(t, layers, i + 1);
    }
  }

  predicate AnyUnreadable(layers: seq<seq<Header>>) {
    exists layer | layer in layers :: Unreadable in layer
  }

  /** And the extraction of the whole image. */
  lemma UnreadableLayerFails(t: Tree, layers: seq<seq<Header>>)
    ensures AnyUnreadable(layers) ==> ApplyLayers(t, AllDecoded(layers)).None?
  {
    if AnyUnreadable(layers) {
      var all := AllDecoded(layers);
      var i :| 0 <= i < |layers| && Unreadable in layers[i];
      LayersStep(t, all, i);
      if ApplyLayers(t, all[..i]).Some? {
        UnreadableFails(ApplyLayers(t, all[..i]).value, layers[i]);
      }
      LayerFailureIsFinal(t, all, i + 1);
    }
  }

  /** A header whose name holds ".." changes nothing, wherever it stands. */
  lemma {:induction false} DottedNamesAreSkipped(layer: seq<Header>, i: nat)
    requires i < |layer| && layer[i].Header? && Contains(layer[i].name, "..")
    ensures Entries(layer) == Entries(layer[..i] + layer[i + 1..])
    decreases |layer|
  {
    var rest := layer[..i] + layer[i + 1..];
    if i == |layer| - 1 {
      assert rest == layer[..i];
    } else {
      var front := layer[..|layer| - 1];
      DottedNamesAreSkipped(front, i);
      assert rest[..|rest| - 1] == front[..i] + front[i + 1..];
      assert rest[|rest| - 1] == layer[|layer| - 1];
    }
  }

  /** The destination directory, changed in place. */
  class Destination {
    var tree: Tree

    constructor ()
      ensures tree == ROOT
    {
      tree := ROOT;
    }

    method ExtractLayer(layer: seq<Header>) returns (ok: bool)
      requires PrefixClosed(tree)
      modifies this
      ensures PrefixClosed(tree)
      ensures ok <==> ApplyAll(old(tree), Entries(layer)).Some?
      ensures ok ==> Some(tree) == ApplyAll(old(tree), Entries(layer))
      ensures Unreadable in layer ==> !ok
    {
      UnreadableFails(tree, layer);
      var i := 0;
      while i < |layer|
        invariant 0 <= i <= |layer|
        invariant ApplyAll(old(tree), Entries(layer[..i])) == Some(tree)
        invariant PrefixClosed(tree)
      {
        EntriesStep(old(tree), layer, i);
        var entry := Decode(layer[i]);
        i := i + 1;
        if entry.None? {
          continue;
        }
        var next := Apply(tree, entry.value);
        if next.None? {
          FailureIsFinal(old(tree), layer, i);
          return false;
        }
        ApplyKeepsPrefixClosed(tree, entry.value);
        tree := next.value;
      }
      assert layer[..i] == layer;
      return true;
    }

    method ExtractLayers(layers: seq<seq<Header>>) returns (ok: bool)
      requires PrefixClosed(tree)
      modifies this
      ensures PrefixClosed(tree)
      ensures ok <==> ApplyLayers(old(tree), AllDecoded(layers)).Some?
      ensures ok ==> Some(tree) == ApplyLayers(old(tree), AllDecoded(layers))
      ensures AnyUnreadable(layers) ==> !ok
    {
      UnreadableLayerFails(tree, layers);
      ghost var all := AllDecoded(layers);
      var i := 0;
      while i < |layers|
        invariant 0 <= i <= |layers|
        invariant ApplyLayers(old(tree), all[..i]) == Some(tree)
        invariant PrefixClosed(tree)
      {
        LayersStep(old(tree), all, i);
        var done := ExtractLayer(layers[i]);
        if !done {
          LayerFailureIsFinal(old(tree), all, i + 1);
          return false;
        }
        i := i + 1;
      }
      assert all[..i] == all;
      return true;
    }
  }
}
