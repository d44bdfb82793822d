/**
 The detector's per-frame output and the person filter of the
 recording loop: only detections labelled exactly "person" are counted.
 */
module Detection {

  /** Bounding box `[x, y, width, height]` in frame pixels. */
  datatype BBox = BBox(x: real, y: real, width: real, height: real)

  /** One labelled box reported by the detector for a frame. */
  datatype Detection = Detection(className: string, bbox: BBox)

  const Person: string := "person"

  predicate IsPerson(d: Detection) {
    d.className == Person
  }

  /** Number of person detections, accumulated in list order like `forEach`. */
  function PersonCount(ds: seq<Detection>): nat
  {
    if ds == [] then 0
    else PersonCount(ds[..|ds| - 1]) + (if IsPerson(ds[|ds| - 1]) then 1 else 0)
  }

  /** Positions of the person detections in the list. */
  ghost function PersonIndices(ds: seq<Detection>): set<nat>
  {
    set i: nat | i < |ds| && IsPerson(ds[i])
  }

  /** The count is the number of positions holding a person detection. */
  lemma {:induction false} PersonCountIsIndexCount(ds: seq<Detection>)
    ensures PersonCount(ds) == |PersonIndices(ds)|
  {
    if ds != [] {
      var init := ds[..|ds| - 1];
      PersonCountIsIndexCount(init);
      var last := |ds| - 1;
      if IsPerson(ds[last]) {
        assert PersonIndices(ds) == PersonIndices(init) + {last};
      } else {
        assert PersonIndices(ds) == PersonIndices(init);
      }
    }
  }

  /** Counting a concatenation adds the counts of its parts. */
  lemma {:induction false} PersonCountAppend(a: seq<Detection>, b: seq<Detection>)
    ensures PersonCount(a + b) == PersonCount(a) + PersonCount(b)
    decreases |b|
  {
    if b != [] {
      PersonCountAppend(a, b[..|b| - 1]);
      assert (a + b)[..|a + b| - 1] == a + b[..|b| - 1];
    } else {
      assert a + b == a;
    }
  }

  /** A detection with any other label, wherever it stands, does not change the count. */
  lemma NonPersonIgnored(a: seq<Detection>, d: Detection, b: seq<Detection>)
    requires !IsPerson(d)
    ensures PersonCount(a + [d] + b) == PersonCount(a + b)
  {
    PersonCountAppend(a + [d], b);
    PersonCountAppend(a, b);
    assert (a + [d])[..|a + [d]| - 1] == a;
  }

  /** A person detection, wherever it stands, adds exactly one to the count. */
  lemma PersonCounted(a: seq<Detection>, d: Detection, b: seq<Detection>)
    requires IsPerson(d)
    ensures PersonCount(a + [d] + b) == PersonCount(a + b) + 1
  {
    PersonCountAppend(a + [d], b);
    PersonCountAppend(a, b);
    assert (a + [d])[..|a + [d]| - 1] == a;
  }

  /** The `forEach` loop of the recording step: one pass, one increment per person. */
  method CountPersons(ds: seq<Detection>) returns (n: nat)
    ensures n == PersonCount(ds)
    ensures n == |PersonIndices(ds)|
  {
    n := 0;
    var i := 0;
    while i < |ds|
      invariant 0 <= i <= |ds|
      invariant n == PersonCount(ds[..i])
    {
      assert ds[..i + 1][..i] == ds[..i];
      if IsPerson(ds[i]) {
        n := n + 1;
      }
      i := i + 1;
    }
    assert ds[..|ds|] == ds;
    PersonCountIsIndexCount(ds);
  }
}
