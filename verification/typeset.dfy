/** `extend_from_original` and `_make_guide_wire` of src/lib/typeset.py as a
    placement plan: instead of copying scene objects, the model computes
    where every copy goes, which glyph index it is tagged with, and how the
    optional guide wire carries the positions.

    A gap in the index list is None.  The source decides the step to a list
    element by Python truthiness, so glyph index 0 takes the gap step, and
    it tags the copies from the non-gap indices after the first non-gap one,
    so a leading gap loses a glyph.  `ExtendFromOriginal` models this as
    written; `ExtendCorrected` steps by `is not None` and tags the copies
    from the non-gap indices after position 0. */
module Typeset {
  import opened Results
  import Ascii

  datatype Vec3 = Vec3(x: real, y: real, z: real)

  const Zero: Vec3 := Vec3(0.0, 0.0, 0.0)

  function Add(a: Vec3, b: Vec3): Vec3 {
    Vec3(a.x + b.x, a.y + b.y, a.z + b.z)
  }

  /** mathutils' `Vector * Vector`: component by component. */
  function Mul(a: Vec3, b: Vec3): Vec3 {
    Vec3(a.x * b.x, a.y * b.y, a.z * b.z)
  }

  function Splat(r: real): Vec3 {
    Vec3(r, r, r)
  }

  /** `n` copies of `v` added up. */
  function Scale(n: nat, v: Vec3): Vec3 {
    if n == 0 then Zero else Add(v, Scale(n - 1, v))
  }

  /** A unit vector along one of the three axes. */
  predicate UnitAxis(v: Vec3) {
    || (v.y == 0.0 && v.z == 0.0 && (v.x == 1.0 || v.x == -1.0))
    || (v.x == 0.0 && v.z == 0.0 && (v.y == 1.0 || v.y == -1.0))
    || (v.x == 0.0 && v.y == 0.0 && (v.z == 1.0 || v.z == -1.0))
  }

  /** The direction argument ("+x", "-y", …).  A string shorter than two
      characters raises IndexError, which is caught: +x.  An unknown axis
      letter raises KeyError, which is not caught.  Only a leading "-"
      reverses the axis. */
  function ParseDirection(direction: string): (r: Result<Vec3, Error>)
    ensures |direction| < 2 ==> r == Ok(Vec3(1.0, 0.0, 0.0))
    ensures |direction| >= 2 ==>
      (r.Err? <==> Ascii.LowerChar(direction[1]) != 'x' && Ascii.LowerChar(direction[1]) != 'y'
                   && Ascii.LowerChar(direction[1]) != 'z')
    ensures r.Err? ==> r.error == UnknownAxis
    ensures r.Ok? ==> UnitAxis(r.value)
    ensures r.Ok? && |direction| >= 2 ==> (r.value.x + r.value.y + r.value.z < 0.0 <==> direction[0] == '-')
    ensures r.Ok? && |direction| >= 2 ==> (r.value.x != 0.0 <==> Ascii.LowerChar(direction[1]) == 'x')
    ensures r.Ok? && |direction| >= 2 ==> (r.value.y != 0.0 <==> Ascii.LowerChar(direction[1]) == 'y')
  {
    if |direction| < 2 then Ok(Vec3(1.0, 0.0, 0.0))
    else
      var sign: real := if direction[0] == '-' then -1.0 else 1.0;
      match Ascii.LowerChar(direction[1])
      case 'x' => Ok(Vec3(sign, 0.0, 0.0))
      case 'y' => Ok(Vec3(0.0, sign, 0.0))
      case 'z' => Ok(Vec3(0.0, 0.0, sign))
      case _ => Err(UnknownAxis)
  }

  // ---------------------------------------------------------------------------
  // Index lists

  /** The non-gap indices, in order. */
  function Present(xs: seq<Option<int>>): (r: seq<int>)
    ensures |r| <= |xs|
  {
    if xs == [] then []
    else if xs[0].Some? then [xs[0].value] + Present(xs[1..])
    else Present(xs[1..])
  }

  /** A value is among the non-gap indices exactly when the list holds it. */
  lemma {:induction false} PresentMembers(xs: seq<Option<int>>, x: int)
    ensures x in Present(xs) <==> Some(x) in xs
  {
    if xs != [] {
      PresentMembers(xs[1..], x);
      assert xs == [xs[0]] + xs[1..];
    }
  }

  lemma PresentHead(xs: seq<Option<int>>)
    requires xs != []
    ensures Present(xs) == (if xs[0].Some? then [xs[0].value] else []) + Present(xs[1..])
  {
    if xs[0].None? {
      assert [] + Present(xs[1..]) == Present(xs[1..]);
    }
  }

  function Shift(ps: seq<nat>): (r: seq<nat>)
    ensures |r| == |ps|
    ensures forall k :: 0 <= k < |ps| ==> r[k] == ps[k] + 1
  {
    seq(|ps|, k requires 0 <= k < |ps| => ps[k] + 1)
  }

  /** The positions of the non-gap indices, in order. */
  function Positions(xs: seq<Option<int>>): (r: seq<nat>)
    ensures |r| == |Present(xs)|
    ensures forall k :: 0 <= k < |r| ==> r[k] < |xs|
  {
    if xs == [] then []
    else if xs[0].Some? then [0] + Shift(Positions(xs[1..]))
    else Shift(Positions(xs[1..]))
  }

  /** Past the first element, the k-th position is one more than the
      tail's k-th (or (k-1)-th, past a glyph). */
  lemma {:induction false} PositionsCons(xs: seq<Option<int>>, k: nat)
    requires k < |Present(xs)| && !(xs[0].Some? && k == 0)
    ensures var k' := if xs[0].Some? then k - 1 else k;
      && k' < |Present(xs[1..])|
      && Positions(xs)[k] == Positions(xs[1..])[k'] + 1
      && Present(xs)[k] == Present(xs[1..])[k']
  {
    var tail := xs[1..];
    if xs[0].Some? {
      assert Positions(xs) == [0] + Shift(Positions(tail));
      assert Present(xs) == [xs[0].value] + Present(tail);
    } else {
      assert Positions(xs) == Shift(Positions(tail));
    }
  }

  /** The k-th position holds the k-th non-gap index. */
  lemma {:induction false} PositionsPoint(xs: seq<Option<int>>, k: nat)
    requires k < |Present(xs)|
    ensures Positions(xs)[k] < |xs| && xs[Positions(xs)[k]] == Some(Present(xs)[k])
  {
    if !(xs[0].Some? && k == 0) {
      var tail := xs[1..];
      var k' := if xs[0].Some? then k - 1 else k;
      PositionsCons(xs, k);
      PositionsPoint(tail, k');
      assert xs[Positions(tail)[k'] + 1] == tail[Positions(tail)[k']];
    }
  }

  /** Python truthiness of a list element: None and 0 are both false. */
  predicate Truthy(c: Option<int>) {
    c.Some? && c.value != 0
  }

  /** Which elements take the gap step: the source's falsy test, or the
      evidently meant None test. */
  datatype GapTest = FalsyIsGap | NoneIsGap

  predicate IsGap(test: GapTest, c: Option<int>) {
    match test
    case FalsyIsGap => !Truthy(c)
    case NoneIsGap => c.None?
  }

  /** The two step vectors: between glyphs, and to a gap. */
  datatype Steps = Steps(offset: Vec3, space: Vec3)

  function Step(st: Steps, test: GapTest, c: Option<int>): Vec3 {
    if IsGap(test, c) then st.space else st.offset
  }

  /** Reference: the sum of the steps to every element of `xs`. */
  function SumSteps(st: Steps, test: GapTest, xs: seq<Option<int>>): Vec3 {
    if xs == [] then Zero else Add(Step(st, test, xs[0]), SumSteps(st, test, xs[1..]))
  }

  /** The offsets loop: walking the elements after the first, the running
      offset advances by one step per element, and a non-gap element
      records it. */
  function Offsets(st: Steps, test: GapTest, rest: seq<Option<int>>, current: Vec3): (r: seq<Vec3>)
    ensures |r| == |Present(rest)|
  {
    if rest == [] then []
    else
      var next := Add(current, Step(st, test, rest[0]));
      if rest[0].Some? then [next] + Offsets(st, test, rest[1..], next)
      else Offsets(st, test, rest[1..], next)
  }

  lemma AddAssoc(a: Vec3, b: Vec3, c: Vec3)
    ensures Add(Add(a, b), c) == Add(a, Add(b, c))
  {
  }

  lemma AddSwap(a: Vec3, b: Vec3, c: Vec3)
    ensures Add(a, Add(b, c)) == Add(b, Add(a, c))
  {
  }

  /** One element of the offsets loop: past a glyph head, the k-th offset
      is the tail's (k-1)-th; past a gap head, the tail's k-th. */
  lemma {:induction false} OffsetsCons(st: Steps, test: GapTest, rest: seq<Option<int>>, current: Vec3, k: nat)
    requires k < |Present(rest)| && !(rest[0].Some? && k == 0)
    ensures var k' := if rest[0].Some? then k - 1 else k;
      Offsets(st, test, rest, current)[k] == Offsets(st, test, rest[1..], Add(current, Step(st, test, rest[0])))[k']
  {
    var next := Add(current, Step(st, test, rest[0]));
    if rest[0].Some? {
      assert Offsets(st, test, rest, current) == [next] + Offsets(st, test, rest[1..], next);
    }
  }

  /** The sum over a non-empty prefix: the first step plus the sum over
      the rest of the prefix. */
  lemma {:induction false} SumStepsPrefix(st: Steps, test: GapTest, xs: seq<Option<int>>, n: nat)
    requires 0 < n <= |xs|
    ensures SumSteps(st, test, xs[..n]) == Add(Step(st, test, xs[0]), SumSteps(st, test, xs[1..][..n - 1]))
  {
    assert xs[..n][1..] == xs[1..][..n - 1];
  }

  /** The base case of `OffsetsAreSums`: a list that starts with a
      glyph records one step past the start. */
  lemma OffsetsSumHead(st: Steps, test: GapTest, rest: seq<Option<int>>, current: Vec3)
    requires rest != [] && rest[0].Some?
    ensures 0 < |Present(rest)|
    ensures Offsets(st, test, rest, current)[0] == Add(current, SumSteps(st, test, rest[..Positions(rest)[0] + 1]))
  {
    assert Positions(rest)[0] == 0;
    SumStepsPrefix(st, test, rest, 1);
    assert rest[1..][..0] == [];
  }

  /** The inductive step of `OffsetsAreSums`: what holds for the tail
      after one step holds for the whole list. */
  lemma {:induction false} OffsetsSumStep(st: Steps, test: GapTest, rest: seq<Option<int>>, current: Vec3, k: nat)
    requires k < |Present(rest)| && !(rest[0].Some? && k == 0)
    requires var k' := if rest[0].Some? then k - 1 else k;
      var next := Add(current, Step(st, test, rest[0]));
      k' < |Present(rest[1..])| &&
      Offsets(st, test, rest[1..], next)[k'] == Add(next, SumSteps(st, test, rest[1..][..Positions(rest[1..])[k'] + 1]))
    ensures Offsets(st, test, rest, current)[k] == Add(current, SumSteps(st, test, rest[..Positions(rest)[k] + 1]))
  {
    var s0 := Step(st, test, rest[0]);
    var tail := rest[1..];
    PositionsCons(rest, k);
    OffsetsCons(st, test, rest, current, k);
    var n := Positions(rest)[k] + 1;
    SumStepsPrefix(st, test, rest, n);
    AddAssoc(current, s0, SumSteps(st, test, tail[..n - 1]));
  }

  /** The k-th recorded offset is the starting offset plus every step up to
      and including the k-th non-gap element. */
  lemma {:induction false} OffsetsAreSums(st: Steps, test: GapTest, rest: seq<Option<int>>, current: Vec3, k: nat)
    requires k < |Present(rest)|
    ensures Offsets(st, test, rest, current)[k] == Add(current, SumSteps(st, test, rest[..Positions(rest)[k] + 1]))
  {
    if rest[0].Some? && k == 0 {
      OffsetsSumHead(st, test, rest, current);
    } else {
      PositionsCons(rest, k);
      OffsetsAreSums(st, test, rest[1..], Add(current, Step(st, test, rest[0])), if rest[0].Some? then k - 1 else k);
      OffsetsSumStep(st, test, rest, current, k);
    }
  }

  function CountGaps(test: GapTest, xs: seq<Option<int>>): (n: nat)
    ensures n <= |xs|
    ensures test == NoneIsGap ==> n == |xs| - |Present(xs)|
  {
    if xs == [] then 0 else (if IsGap(test, xs[0]) then 1 else 0) + CountGaps(test, xs[1..])
  }

  /** The sum of the steps is one step per non-gap element plus one gap
      step per gap. */
  lemma {:induction false} SumStepsCounts(st: Steps, test: GapTest, xs: seq<Option<int>>)
    ensures SumSteps(st, test, xs)
         == Add(Scale(|xs| - CountGaps(test, xs), st.offset), Scale(CountGaps(test, xs), st.space))
  {
    if xs == [] {
      assert CountGaps(test, xs) == 0;
    } else {
      var tail := xs[1..];
      var g := CountGaps(test, tail);
      var a := |tail| - g;
      SumStepsCounts(st, test, tail);
      var glyphs, gaps := Scale(a, st.offset), Scale(g, st.space);
      if IsGap(test, xs[0]) {
        assert CountGaps(test, xs) == g + 1 && |xs| - CountGaps(test, xs) == a;
        calc {
          SumSteps(st, test, xs);
          Add(st.space, Add(glyphs, gaps));
          { AddSwap(st.space, glyphs, gaps); }
          Add(glyphs, Add(st.space, gaps));
          Add(glyphs, Scale(g + 1, st.space));
          Add(Scale(|xs| - CountGaps(test, xs), st.offset), Scale(CountGaps(test, xs), st.space));
        }
      } else {
        assert CountGaps(test, xs) == g && |xs| - CountGaps(test, xs) == a + 1;
        calc {
          SumSteps(st, test, xs);
          Add(st.offset, Add(glyphs, gaps));
          { AddAssoc(st.offset, glyphs, gaps); }
          Add(Add(st.offset, glyphs), gaps);
          Add(Scale(a + 1, st.offset), gaps);
          Add(Scale(|xs| - CountGaps(test, xs), st.offset), Scale(CountGaps(test, xs), st.space));
        }
      }
    }
  }

  // ---------------------------------------------------------------------------
  // The plan

  /** The object to extend: where it is and how big it is. */
  datatype Template = Template(location: Vec3, dimensions: Vec3)

  /** A placed object: its location (relative to the wire vertex it hangs
      on, when it has one), its `keycap` tag, and its parent vertex. */
  datatype Placed = Placed(location: Vec3, keycap: Option<int>, parentVertex: Option<nat>)

  /** The guide wire mesh: its location, its vertices and its edges. */
  datatype Wire = Wire(location: Vec3, points: seq<Vec3>, edges: seq<(nat, nat)>)

  /** `Untouched` is the early return for an empty index list; otherwise the
      tagged original, its copies in creation order, and the wire. */
  datatype Plan = Untouched | Extended(original: Placed, copies: seq<Placed>, wire: Option<Wire>)

  /** Point `p` is joined to the point before it. */
  predicate JoinsPrevious(edges: seq<(nat, nat)>, p: nat) {
    p > 0 && (p - 1, p) in edges
  }

  /** `_make_guide_wire`'s edges: one open path through all the points in
      order, with no other edges. */
  function WireEdges(n: nat): (edges: seq<(nat, nat)>)
    ensures |edges| == if n == 0 then 0 else n - 1
    ensures forall k :: 0 <= k < |edges| ==> edges[k].1 == edges[k].0 + 1 && edges[k].1 < n
    ensures forall p: nat :: 0 < p < n ==> JoinsPrevious(edges, p)
  {
    var r := seq(if n == 0 then 0 else n - 1, k requires 0 <= k < (if n == 0 then 0 else n - 1) => (k, k + 1));
    assert forall p: nat :: 0 < p < n ==> JoinsPrevious(r, p) by {
      forall p: nat | 0 < p < n
        ensures JoinsPrevious(r, p)
      {
        assert r[p - 1] == (p - 1, p);
      }
    }
    r
  }

  /** The last part of `extend_from_original`: the original keeps its place
      (or hangs on vertex 0 of the wire), copy `j` goes to the original's
      location plus `offsets[j + 1]` (or hangs on vertex `j + 1`). */
  function Assemble(original: Template, first: Option<int>, offsets: seq<Vec3>, tags: seq<int>, guideWire: bool): (p: Plan)
    requires |tags| < |offsets|
    ensures p.Extended? && |p.copies| == |tags| && p.original.keycap == first
    ensures forall j :: 0 <= j < |tags| ==> p.copies[j].keycap == Some(tags[j])
    ensures guideWire <==> p.wire.Some?
    ensures !guideWire ==> p.original.location == original.location
    ensures !guideWire ==> forall j :: 0 <= j < |tags| ==>
      p.copies[j] == Placed(Add(original.location, offsets[j + 1]), Some(tags[j]), None)
    ensures guideWire ==> p.wire.value == Wire(original.location, offsets, WireEdges(|offsets|))
    ensures guideWire ==> p.original == Placed(Zero, first, Some(0))
    ensures guideWire ==> forall j :: 0 <= j < |tags| ==> p.copies[j] == Placed(Zero, Some(tags[j]), Some(j + 1))
  {
    if guideWire then
      Extended(Placed(Zero, first, Some(0)),
               seq(|tags|, j requires 0 <= j < |tags| => Placed(Zero, Some(tags[j]), Some(j + 1))),
               Some(Wire(original.location, offsets, WireEdges(|offsets|))))
    else
      Extended(Placed(original.location, first, None),
               seq(|tags|, j requires 0 <= j < |tags| => Placed(Add(original.location, offsets[j + 1]), Some(tags[j]), None)),
               None)
  }

  /** The step vectors for a template, a gap, a gap adjustment and a
      direction: the template's size plus the gap along the direction, and
      for a gap step the adjustment on top. */
  function StepsFor(original: Template, gap: real, spaceGap: real, dir: Vec3): (st: Steps)
    ensures dir == Vec3(1.0, 0.0, 0.0) ==>
      st == Steps(Vec3(original.dimensions.x + gap, 0.0, 0.0), Vec3(original.dimensions.x + gap + spaceGap, 0.0, 0.0))
    ensures dir.y == 0.0 && dir.z == 0.0 ==>
      st.offset == Vec3(dir.x * (original.dimensions.x + gap), 0.0, 0.0)
    ensures dir.x == 0.0 && dir.z == 0.0 ==>
      st.offset == Vec3(0.0, dir.y * (original.dimensions.y + gap), 0.0)
    ensures dir.x == 0.0 && dir.y == 0.0 ==>
      st.offset == Vec3(0.0, 0.0, dir.z * (original.dimensions.z + gap))
    ensures st.space == Add(st.offset, Mul(Splat(spaceGap), dir))
  {
    var offset := Mul(Add(original.dimensions, Splat(gap)), dir);
    Steps(offset, Add(offset, Mul(Splat(spaceGap), dir)))
  }

  /** The offsets list: zero for the original, then one per non-gap element
      after position 0. */
  function OffsetList(st: Steps, test: GapTest, indices: seq<Option<int>>): (r: seq<Vec3>)
    requires indices != []
    ensures |r| == |Present(indices[1..])| + 1 && r[0] == Zero
  {
    [Zero] + Offsets(st, test, indices[1..], Zero)
  }

  /** The source's copy tags: the non-gap indices minus the first of them. */
  function TagsAsWritten(indices: seq<Option<int>>): (r: seq<int>)
    requires indices != []
    ensures |r| <= |Present(indices[1..])|
    ensures indices[0].Some? ==> r == Present(indices[1..])
    ensures indices[0].None? ==> r == if Present(indices[1..]) == [] then [] else Present(indices[1..])[1..]
  {
    var present := Present(indices);
    PresentHead(indices);
    if present == [] then [] else present[1..]
  }

  /** What `extend_from_original` builds once the direction is known, as
      written: falsy elements take the gap step, and the copies are tagged
      with the non-gap indices after the first non-gap one. */
  function AsWrittenPlan(original: Template, indices: seq<Option<int>>, st: Steps, guideWire: bool): (p: Plan)
    requires indices != []
    ensures p.Extended? && p.original.keycap == indices[0]
    ensures |p.copies| == (if |Present(indices)| == 0 then 0 else |Present(indices)| - 1)
  {
    PresentHead(indices);
    Assemble(original, indices[0], OffsetList(st, FalsyIsGap, indices), TagsAsWritten(indices), guideWire)
  }

  /** The same as evidently meant: a step is the gap step exactly when the
      element is None, and every non-gap element after position 0 gets a
      copy tagged with its own index. */
  function CorrectedPlan(original: Template, indices: seq<Option<int>>, st: Steps, guideWire: bool): (p: Plan)
    requires indices != []
    ensures p.Extended? && p.original.keycap == indices[0]
    ensures |p.copies| == |Present(indices[1..])|
  {
    Assemble(original, indices[0], OffsetList(st, NoneIsGap, indices), Present(indices[1..]), guideWire)
  }

  /** `extend_from_original` as written.  An empty index list returns
      before the direction is read; an unknown axis is an error. */
  function ExtendFromOriginal(original: Template, indices: seq<Option<int>>, gap: real, spaceGap: real,
                              direction: string, guideWire: bool): (r: Result<Plan, Error>)
    ensures indices == [] ==> r == Ok(Untouched)
    ensures indices != [] ==> (r.Err? <==> ParseDirection(direction).Err?)
    ensures r.Ok? && indices != [] ==>
      && r.value.Extended? && r.value.original.keycap == indices[0]
      && |r.value.copies| == (if |Present(indices)| == 0 then 0 else |Present(indices)| - 1)
  {
    if indices == [] then Ok(Untouched)
    else
      var dir :- ParseDirection(direction);
      Ok(AsWrittenPlan(original, indices, StepsFor(original, gap, spaceGap, dir), guideWire))
  }

  /** `extend_from_original` as evidently meant. */
  function ExtendCorrected(original: Template, indices: seq<Option<int>>, gap: real, spaceGap: real,
                           direction: string, guideWire: bool): (r: Result<Plan, Error>)
    ensures indices == [] ==> r == Ok(Untouched)
    ensures indices != [] ==> (r.Err? <==> ParseDirection(direction).Err?)
    ensures r.Ok? && indices != [] ==>
      && r.value.Extended? && r.value.original.keycap == indices[0]
      && |r.value.copies| == |Present(indices[1..])|
  {
    if indices == [] then Ok(Untouched)
    else
      var dir :- ParseDirection(direction);
      Ok(CorrectedPlan(original, indices, StepsFor(original, gap, spaceGap, dir), guideWire))
  }

  // ---------------------------------------------------------------------------
  // Properties

  /** As written, copy `j` is tagged with the non-gap index after the first
      one and placed at the running sum of the source's steps up to the
      `j`-th non-gap element after position 0. */
  lemma {:induction false} AsWrittenCopy(original: Template, indices: seq<Option<int>>, st: Steps, j: nat)
    requires indices != [] && j < |AsWrittenPlan(original, indices, st, false).copies|
    ensures var rest := indices[1..];
      AsWrittenPlan(original, indices, st, false).copies[j]
      == Placed(Add(original.location, SumSteps(st, FalsyIsGap, rest[..Positions(rest)[j] + 1])),
                Some(Present(indices)[j + 1]), None)
  {
    var rest := indices[1..];
    var offsets := OffsetList(st, FalsyIsGap, indices);
    var tags := TagsAsWritten(indices);
    var p := Assemble(original, indices[0], offsets, tags, false);
    assert AsWrittenPlan(original, indices, st, false) == p;
    assert p.copies[j] == Placed(Add(original.location, offsets[j + 1]), Some(tags[j]), None);
    assert tags[j] == Present(indices)[j + 1] by {
      PresentHead(indices);
    }
    OffsetListAt(st, FalsyIsGap, indices, j);
  }

  /** Entry `j + 1` of the offsets list is the sum of the steps up to and
      including the `j`-th non-gap element after position 0. */
  lemma OffsetListAt(st: Steps, test: GapTest, indices: seq<Option<int>>, j: nat)
    requires indices != [] && j < |Present(indices[1..])|
    ensures var rest := indices[1..];
      OffsetList(st, test, indices)[j + 1] == SumSteps(st, test, rest[..Positions(rest)[j] + 1])
  {
    var rest := indices[1..];
    var sum := SumSteps(st, test, rest[..Positions(rest)[j] + 1]);
    assert OffsetList(st, test, indices)[j + 1] == Offsets(st, test, rest, Zero)[j];
    OffsetsAreSums(st, test, rest, Zero, j);
    assert Add(Zero, sum) == sum;
  }

  /** Corrected, copy `j` is the `j`-th non-gap element after position 0:
      tagged with its own index and placed one normal step per glyph and
      one gap step per gap up to and including it. */
  lemma {:induction false} CorrectedCopy(original: Template, indices: seq<Option<int>>, st: Steps, j: nat)
    requires indices != [] && j < |CorrectedPlan(original, indices, st, false).copies|
    ensures var rest := indices[1..];
      var upTo := rest[..Positions(rest)[j] + 1];
      CorrectedPlan(original, indices, st, false).copies[j]
      == Placed(Add(original.location, Add(Scale(|upTo| - CountGaps(NoneIsGap, upTo), st.offset),
                                           Scale(CountGaps(NoneIsGap, upTo), st.space))),
                rest[Positions(rest)[j]], None)
  {
    var rest := indices[1..];
    var offsets := OffsetList(st, NoneIsGap, indices);
    var p := Assemble(original, indices[0], offsets, Present(rest), false);
    assert CorrectedPlan(original, indices, st, false) == p;
    assert p.copies[j] == Placed(Add(original.location, offsets[j + 1]), Some(Present(rest)[j]), None);
    PositionsPoint(rest, j);
    var upTo := rest[..Positions(rest)[j] + 1];
    OffsetListAt(st, NoneIsGap, indices, j);
    SumStepsCounts(st, NoneIsGap, upTo);
  }

  /** Where an object ends up in the world: hung on a wire vertex it sits at
      the wire's location plus that vertex plus its own location. */
  function WorldPosition(p: Plan, k: nat): Vec3
    requires p.Extended? && k <= |p.copies|
  {
    var obj := if k == 0 then p.original else p.copies[k - 1];
    if obj.parentVertex.Some? && p.wire.Some? && obj.parentVertex.value < |p.wire.value.points| then
      Add(Add(p.wire.value.location, p.wire.value.points[obj.parentVertex.value]), obj.location)
    else obj.location
  }

  /** The guide wire moves nothing: with or without it every object ends up
      at the same place, and with it object `k` hangs on vertex `k`. */
  lemma {:induction false} WireKeepsPositions(original: Template, first: Option<int>, offsets: seq<Vec3>, tags: seq<int>, k: nat)
    requires |tags| < |offsets| && offsets[0] == Zero && k <= |tags|
    ensures var with := Assemble(original, first, offsets, tags, true);
      var without := Assemble(original, first, offsets, tags, false);
      && WorldPosition(with, k) == WorldPosition(without, k)
      && (if k == 0 then with.original else with.copies[k - 1]).parentVertex == Some(k)
  {
  }

  /** Both plans keep their objects in place when the guide wire is on. */
  lemma {:induction false} GuideWireKeepsPositions(original: Template, indices: seq<Option<int>>, st: Steps, k: nat)
    requires indices != []
    ensures k <= |CorrectedPlan(original, indices, st, false).copies| ==>
      WorldPosition(CorrectedPlan(original, indices, st, true), k) == WorldPosition(CorrectedPlan(original, indices, st, false), k)
    ensures k <= |AsWrittenPlan(original, indices, st, false).copies| ==>
      WorldPosition(AsWrittenPlan(original, indices, st, true), k) == WorldPosition(AsWrittenPlan(original, indices, st, false), k)
  {
    if k <= |Present(indices[1..])| {
      WireKeepsPositions(original, indices[0], OffsetList(st, NoneIsGap, indices), Present(indices[1..]), k);
    }
    if k <= |TagsAsWritten(indices)| {
      WireKeepsPositions(original, indices[0], OffsetList(st, FalsyIsGap, indices), TagsAsWritten(indices), k);
    }
  }

  lemma {:induction false} NoZeroSameOffsets(st: Steps, xs: seq<Option<int>>, current: Vec3)
    requires forall i :: 0 <= i < |xs| ==> xs[i] != Some(0)
    ensures Offsets(st, FalsyIsGap, xs, current) == Offsets(st, NoneIsGap, xs, current)
  {
    if xs != [] {
      assert Step(st, FalsyIsGap, xs[0]) == Step(st, NoneIsGap, xs[0]);
      NoZeroSameOffsets(st, xs[1..], Add(current, Step(st, NoneIsGap, xs[0])));
    }
  }

  /** When the list does not start with a gap and holds no glyph index 0
      after its first element, the source does what was meant. */
  lemma {:induction false} AsWrittenAgrees(original: Template, indices: seq<Option<int>>, gap: real, spaceGap: real,
                        direction: string, guideWire: bool)
    requires indices != [] && indices[0].Some?
    requires forall i :: 1 <= i < |indices| ==> indices[i] != Some(0)
    ensures ExtendFromOriginal(original, indices, gap, spaceGap, direction, guideWire)
         == ExtendCorrected(original, indices, gap, spaceGap, direction, guideWire)
  {
    if ParseDirection(direction).Ok? {
      var st := StepsFor(original, gap, spaceGap, ParseDirection(direction).value);
      var rest := indices[1..];
      assert forall i :: 0 <= i < |rest| ==> rest[i] == indices[i + 1];
      NoZeroSameOffsets(st, rest, Zero);
    }
  }

  // ---------------------------------------------------------------------------
  // Examples: a template at the origin, 10 wide, extended along +x with gap 2

  function Block(): Template { Template(Zero, Vec3(10.0, 10.0, 10.0)) }

  lemma XSteps(spaceGap: real)
    ensures StepsFor(Block(), 2.0, spaceGap, Vec3(1.0, 0.0, 0.0))
         == Steps(Vec3(12.0, 0.0, 0.0), Vec3(12.0 + spaceGap, 0.0, 0.0))
  {
  }

  lemma PlusX()
    ensures ParseDirection("+x") == Ok(Vec3(1.0, 0.0, 0.0))
  {
  }

  lemma RunOffsets()
    ensures var st := Steps(Vec3(12.0, 0.0, 0.0), Vec3(12.0, 0.0, 0.0));
      && OffsetList(st, FalsyIsGap, [Some(0), Some(1), Some(2)]) == [Zero, Vec3(12.0, 0.0, 0.0), Vec3(24.0, 0.0, 0.0)]
      && TagsAsWritten([Some(0), Some(1), Some(2)]) == [1, 2]
  {
    var indices: seq<Option<int>> := [Some(0), Some(1), Some(2)];
    var st := Steps(Vec3(12.0, 0.0, 0.0), Vec3(12.0, 0.0, 0.0));
    var a, b := Vec3(12.0, 0.0, 0.0), Vec3(24.0, 0.0, 0.0);
    var rest: seq<Option<int>> := [Some(1), Some(2)];
    assert indices[1..] == rest && rest[1..] == [Some(2)] && rest[1..][1..] == [];
    assert Present(rest[1..]) == [2];
    assert Present(rest) == [1, 2];
    assert Present(indices) == [0, 1, 2];
    assert Offsets(st, FalsyIsGap, rest[1..], a) == [b];
    assert Offsets(st, FalsyIsGap, rest, Zero) == [a, b];
  }

  /** Indices 0, 1, 2: the copies sit at x = 12 and x = 24. */
  lemma RunExample()
    ensures var p := ExtendFromOriginal(Block(), [Some(0), Some(1), Some(2)], 2.0, 0.0, "+x", false).value;
      && p.original == Placed(Zero, Some(0), None)
      && p.copies == [Placed(Vec3(12.0, 0.0, 0.0), Some(1), None), Placed(Vec3(24.0, 0.0, 0.0), Some(2), None)]
  {
    var a, b := Vec3(12.0, 0.0, 0.0), Vec3(24.0, 0.0, 0.0);
    RunOffsets();
    XSteps(0.0);
    var p := Assemble(Block(), Some(0), [Zero, a, b], [1, 2], false);
    assert p.copies == [Placed(a, Some(1), None), Placed(b, Some(2), None)];
    PlusX();
  }

  /** Indices 0, gap, 2 with a gap step 3 wider: one copy, at 12 + 15 = 27. */
  lemma GapExample()
    ensures var p := ExtendFromOriginal(Block(), [Some(0), None, Some(2)], 2.0, 3.0, "+x", false).value;
      p.copies == [Placed(Vec3(27.0, 0.0, 0.0), Some(2), None)]
  {
    var indices: seq<Option<int>> := [Some(0), None, Some(2)];
    var rest: seq<Option<int>> := [None, Some(2)];
    assert indices[1..] == rest && rest[1..] == [Some(2)] && rest[1..][1..] == [];
    XSteps(3.0);
    var st := Steps(Vec3(12.0, 0.0, 0.0), Vec3(15.0, 0.0, 0.0));
    var c := Vec3(27.0, 0.0, 0.0);
    assert Offsets(st, FalsyIsGap, rest[1..], Vec3(15.0, 0.0, 0.0)) == [c];
    assert Offsets(st, FalsyIsGap, rest, Zero) == [c];
    assert Present(rest[1..]) == [2];
    assert Present(rest) == [2];
    assert Present(indices) == [0, 2];
    assert TagsAsWritten(indices) == [2];
    assert OffsetList(st, FalsyIsGap, indices) == [Zero, c];
    var p := Assemble(Block(), Some(0), [Zero, c], [2], false);
    assert p.copies == [Placed(c, Some(2), None)];
    PlusX();
  }

  /** Glyph index 0 after the first element takes the gap step: the copy of
      index 0 lands at 12 + 3 = 15 instead of 12. */
  lemma ZeroIndexTakesGapStep()
    ensures ExtendFromOriginal(Block(), [Some(1), Some(0)], 2.0, 3.0, "+x", false).value.copies
         == [Placed(Vec3(15.0, 0.0, 0.0), Some(0), None)]
    ensures ExtendCorrected(Block(), [Some(1), Some(0)], 2.0, 3.0, "+x", false).value.copies
         == [Placed(Vec3(12.0, 0.0, 0.0), Some(0), None)]
  {
    var indices: seq<Option<int>> := [Some(1), Some(0)];
    var rest: seq<Option<int>> := [Some(0)];
    assert indices[1..] == rest && rest[1..] == [];
    XSteps(3.0);
    var st := Steps(Vec3(12.0, 0.0, 0.0), Vec3(15.0, 0.0, 0.0));
    var wrong, right := Vec3(15.0, 0.0, 0.0), Vec3(12.0, 0.0, 0.0);
    assert Offsets(st, FalsyIsGap, rest, Zero) == [wrong];
    assert Offsets(st, NoneIsGap, rest, Zero) == [right];
    assert Present(rest) == [0];
    assert Present(indices) == [1, 0];
    assert TagsAsWritten(indices) == [0];
    assert OffsetList(st, FalsyIsGap, indices) == [Zero, wrong];
    assert OffsetList(st, NoneIsGap, indices) == [Zero, right];
    var p := Assemble(Block(), Some(1), [Zero, wrong], [0], false);
    var q := Assemble(Block(), Some(1), [Zero, right], [0], false);
    assert p.copies == [Placed(wrong, Some(0), None)];
    assert q.copies == [Placed(right, Some(0), None)];
    PlusX();
  }

  /** A leading gap loses the first glyph: for gap, 5, 6 the source makes one
      copy, tagged 6 and placed where 5 belongs. */
  lemma LeadingGapLosesGlyph()
    ensures ExtendFromOriginal(Block(), [None, Some(5), Some(6)], 2.0, 0.0, "+x", false).value.copies
         == [Placed(Vec3(12.0, 0.0, 0.0), Some(6), None)]
    ensures ExtendCorrected(Block(), [None, Some(5), Some(6)], 2.0, 0.0, "+x", false).value.copies
         == [Placed(Vec3(12.0, 0.0, 0.0), Some(5), None), Placed(Vec3(24.0, 0.0, 0.0), Some(6), None)]
  {
    var indices: seq<Option<int>> := [None, Some(5), Some(6)];
    var rest: seq<Option<int>> := [Some(5), Some(6)];
    assert indices[1..] == rest && rest[1..] == [Some(6)] && rest[1..][1..] == [];
    XSteps(0.0);
    var st := Steps(Vec3(12.0, 0.0, 0.0), Vec3(12.0, 0.0, 0.0));
    var a, b := Vec3(12.0, 0.0, 0.0), Vec3(24.0, 0.0, 0.0);
    assert Offsets(st, FalsyIsGap, rest[1..], a) == [b];
    assert Offsets(st, NoneIsGap, rest[1..], a) == [b];
    assert Offsets(st, FalsyIsGap, rest, Zero) == [a, b];
    assert Offsets(st, NoneIsGap, rest, Zero) == [a, b];
    assert Present(rest[1..]) == [6];
    assert Present(rest) == [5, 6];
    assert Present(indices) == [5, 6];
    assert TagsAsWritten(indices) == [6];
    assert OffsetList(st, FalsyIsGap, indices) == [Zero, a, b];
    assert OffsetList(st, NoneIsGap, indices) == [Zero, a, b];
    var p := Assemble(Block(), None, [Zero, a, b], [6], false);
    var q := Assemble(Block(), None, [Zero, a, b], [5, 6], false);
    assert p.copies == [Placed(a, Some(6), None)];
    assert q.copies == [Placed(a, Some(5), None), Placed(b, Some(6), None)];
    PlusX();
  }
}
