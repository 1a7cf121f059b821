/**
 `Extractor.extract_info` and the ordered pattern tables built on it: run one
 pattern over the whole text, read one group of every match, and keep the
 captures that are neither `None` nor empty, in match order.
 */
module Captures {
  import opened Optional
  import opened Regex

  /** Python truthiness of a `str | None`: present and non-empty. */
  predicate Truthy(o: Option<string>) {
    o.Some? && o.value != ""
  }

  /** `[i for i in xs if i]` */
  function KeepPresent(xs: seq<Option<string>>): (r: seq<string>)
    ensures |r| <= |xs|
    ensures forall k :: 0 <= k < |r| ==> r[k] != ""
    ensures forall x :: x in r <==> x != "" && Some(x) in xs
  {
    if |xs| == 0 then []
    else
      assert xs == [xs[0]] + xs[1..];
      if Truthy(xs[0]) then [xs[0].value] + KeepPresent(xs[1..])
      else KeepPresent(xs[1..])
  }

  /** Filtering commutes with concatenation: what one part keeps does not depend on the other. */
  lemma {:induction false} KeepPresentAppend(a: seq<Option<string>>, b: seq<Option<string>>)
    ensures KeepPresent(a + b) == KeepPresent(a) + KeepPresent(b)
    decreases |a|
  {
    if |a| > 0 {
      assert (a + b)[1..] == a[1..] + b;
      KeepPresentAppend(a[1..], b);
    } else {
      assert a + b == b;
    }
  }

  /** A missing or empty entry is dropped without disturbing the order of the others. */
  lemma DropsFalsyEntry(a: seq<Option<string>>, x: Option<string>, b: seq<Option<string>>)
    requires !Truthy(x)
    ensures KeepPresent(a + [x] + b) == KeepPresent(a) + KeepPresent(b)
  {
    assert KeepPresent([x]) == [] by {
      assert [x][1..] == [];
    }
    calc {
      KeepPresent(a + [x] + b);
      { KeepPresentAppend(a + [x], b); }
      KeepPresent(a + [x]) + KeepPresent(b);
      { KeepPresentAppend(a, [x]); }
      KeepPresent(a) + [] + KeepPresent(b);
      { assert KeepPresent(a) + [] == KeepPresent(a); }
      KeepPresent(a) + KeepPresent(b);
    }
  }

  /** When every entry is present and non-empty, nothing is dropped. */
  lemma {:induction false} KeepPresentAllTruthy(xs: seq<Option<string>>)
    requires forall k :: 0 <= k < |xs| ==> Truthy(xs[k])
    ensures |KeepPresent(xs)| == |xs|
    ensures forall k :: 0 <= k < |xs| ==> xs[k] == Some(KeepPresent(xs)[k])
    decreases |xs|
  {
    if |xs| > 0 {
      KeepPresentAllTruthy(xs[1..]);
    }
  }

  /** `idx` lists, strictly increasing, the positions of `xs` that `r` keeps, and
      every truthy entry of `xs` is among them. */
  ghost predicate Selects(xs: seq<Option<string>>, r: seq<string>, idx: seq<nat>) {
    && |idx| == |r|
    && (forall k :: 0 <= k < |idx| ==> idx[k] < |xs| && xs[idx[k]] == Some(r[k]))
    && (forall k, l :: 0 <= k < l < |idx| ==> idx[k] < idx[l])
    && (forall j :: 0 <= j < |xs| && Truthy(xs[j]) ==> j in idx)
  }

  /** The kept entries are exactly the truthy ones, in their original order. */
  lemma {:induction false} KeepPresentSelects(xs: seq<Option<string>>) returns (idx: seq<nat>)
    ensures Selects(xs, KeepPresent(xs), idx)
    decreases |xs|
  {
    if |xs| == 0 {
      return [];
    }
    var tail := KeepPresentSelects(xs[1..]);
    idx := SelectsCons(xs[0], xs[1..], KeepPresent(xs[1..]), tail);
    assert xs == [xs[0]] + xs[1..];
  }

  /** Extending a selection by one entry at the front. */
  lemma SelectsCons(x: Option<string>, rest: seq<Option<string>>, kept: seq<string>, tail: seq<nat>)
    returns (idx: seq<nat>)
    requires Selects(rest, kept, tail)
    ensures Selects([x] + rest, if Truthy(x) then [x.value] + kept else kept, idx)
  {
    var shifted := SelectsShift(x, rest, kept, tail);
    if Truthy(x) {
      idx := SelectsKeepHead(x, rest, kept, shifted);
    } else {
      idx := shifted;
      forall j | 0 <= j < |[x] + rest| && Truthy(([x] + rest)[j])
        ensures j in idx
      {
        assert j != 0;
      }
    }
  }

  /** The positions of a selection of `rest`, seen inside `[x] + rest`. */
  lemma SelectsShift(x: Option<string>, rest: seq<Option<string>>, kept: seq<string>, tail: seq<nat>)
    returns (shifted: seq<nat>)
    requires Selects(rest, kept, tail)
    ensures |shifted| == |kept|
    ensures forall k :: 0 <= k < |shifted| ==>
      1 <= shifted[k] < |[x] + rest| && ([x] + rest)[shifted[k]] == Some(kept[k])
    ensures forall k, l :: 0 <= k < l < |shifted| ==> shifted[k] < shifted[l]
    ensures forall j :: 1 <= j < |[x] + rest| && Truthy(([x] + rest)[j]) ==> j in shifted
  {
    var xs := [x] + rest;
    shifted := Shift(tail);
    forall k | 0 <= k < |shifted|
      ensures 1 <= shifted[k] < |xs| && xs[shifted[k]] == Some(kept[k])
    {
      assert xs[shifted[k]] == rest[tail[k]];
    }
    forall j | 1 <= j < |xs| && Truthy(xs[j])
      ensures j in shifted
    {
      assert rest[j - 1] == xs[j];
      assert j - 1 in tail;
      var k :| 0 <= k < |tail| && tail[k] == j - 1;
      assert shifted[k] == j;
    }
  }

  /** A truthy head is kept at position 0, ahead of the shifted selection. */
  lemma SelectsKeepHead(x: Option<string>, rest: seq<Option<string>>, kept: seq<string>, shifted: seq<nat>)
    returns (idx: seq<nat>)
    requires Truthy(x)
    requires |shifted| == |kept|
    requires forall k :: 0 <= k < |shifted| ==>
      1 <= shifted[k] < |[x] + rest| && ([x] + rest)[shifted[k]] == Some(kept[k])
    requires forall k, l :: 0 <= k < l < |shifted| ==> shifted[k] < shifted[l]
    requires forall j :: 1 <= j < |[x] + rest| && Truthy(([x] + rest)[j]) ==> j in shifted
    ensures Selects([x] + rest, [x.value] + kept, idx)
  {
    var xs := [x] + rest;
    var r := [x.value] + kept;
    idx := [0] + shifted;
    forall k | 0 <= k < |idx|
      ensures idx[k] < |xs| && xs[idx[k]] == Some(r[k])
    {
      if k > 0 {
        assert idx[k] == shifted[k - 1];
      }
    }
    forall j | 0 <= j < |xs| && Truthy(xs[j])
      ensures j in idx
    {
      if j > 0 {
        assert j in shifted;
        var i :| 0 <= i < |shifted| && shifted[i] == j;
        assert idx[i + 1] == j;
      } else {
        assert idx[0] == j;
      }
    }
    forall k, l | 0 <= k < l < |idx|
      ensures idx[k] < idx[l]
    {
      assert idx[l] == shifted[l - 1];
    }
  }

  /** Every position moved one to the right. */
  function Shift(idx: seq<nat>): (r: seq<nat>)
    ensures |r| == |idx|
    ensures forall k :: 0 <= k < |idx| ==> r[k] == idx[k] + 1
  {
    seq(|idx|, k requires 0 <= k < |idx| => idx[k] + 1)
  }

  /** `m.group(index)` for every match, in match order. */
  function GroupValues(ms: seq<Match>, index: nat): (r: seq<Option<string>>)
    ensures |r| == |ms|
    ensures forall k :: 0 <= k < |ms| ==> r[k] == Group(ms[k], index)
  {
    seq(|ms|, k requires 0 <= k < |ms| => Group(ms[k], index))
  }

  /** Some match of `p` in `text` captures the non-empty `x` in group `index`. */
  ghost predicate Captured(find: Finder, p: Pattern, text: string, index: nat, x: string) {
    x != "" && exists m :: m in find(p, text) && Group(m, index) == Some(x)
  }

  /** `Extractor.extract_info(pattern, urls, index)`. The `if result` guard of
      the source is always true (an iterator object is truthy). */
  function ExtractInfo(find: Finder, p: Pattern, text: string, index: nat): (r: seq<string>)
    ensures |r| <= |find(p, text)|
    ensures forall k :: 0 <= k < |r| ==> r[k] != ""
    ensures forall x :: x in r <==> Captured(find, p, text, index, x)
  {
    var r := KeepPresent(GroupValues(find(p, text), index));
    assert forall x :: Some(x) in GroupValues(find(p, text), index) <==> exists m :: m in find(p, text) && Group(m, index) == Some(x) by {
      var gs := GroupValues(find(p, text), index);
      forall x ensures Some(x) in gs ==> exists m :: m in find(p, text) && Group(m, index) == Some(x) {
        if Some(x) in gs {
          var k :| 0 <= k < |gs| && gs[k] == Some(x);
          assert find(p, text)[k] in find(p, text);
        }
      }
    }
    r
  }

  /** The captures come in match order: `idx` gives, for each result, the match it
      came from; the positions strictly increase and every match whose group is
      non-empty contributes. */
  lemma ExtractInfoInMatchOrder(find: Finder, p: Pattern, text: string, index: nat) returns (idx: seq<nat>)
    ensures |idx| == |ExtractInfo(find, p, text, index)|
    ensures forall k :: 0 <= k < |idx| ==>
      idx[k] < |find(p, text)| && Group(find(p, text)[idx[k]], index) == Some(ExtractInfo(find, p, text, index)[k])
    ensures forall k, l :: 0 <= k < l < |idx| ==> idx[k] < idx[l]
    ensures forall j :: 0 <= j < |find(p, text)| && Truthy(Group(find(p, text)[j], index)) ==> j in idx
  {
    idx := KeepPresentSelects(GroupValues(find(p, text), index));
    assert Selects(GroupValues(find(p, text), index), ExtractInfo(find, p, text, index), idx);
  }

  /** When every match captures something non-empty, there is exactly one capture per match. */
  lemma ExtractInfoOnePerMatch(find: Finder, p: Pattern, text: string, index: nat)
    requires forall m :: m in find(p, text) ==> Truthy(Group(m, index))
    ensures |ExtractInfo(find, p, text, index)| == |find(p, text)|
    ensures forall k :: 0 <= k < |find(p, text)| ==>
      Group(find(p, text)[k], index) == Some(ExtractInfo(find, p, text, index)[k])
  {
    var gs := GroupValues(find(p, text), index);
    assert forall k :: 0 <= k < |gs| ==> Truthy(gs[k]) by {
      forall k | 0 <= k < |gs| ensures Truthy(gs[k]) {
        assert find(p, text)[k] in find(p, text);
      }
    }
    KeepPresentAllTruthy(gs);
  }

  /** One row of a precedence table: a pattern and the group that holds the identifier. */
  datatype Shape = Shape(pattern: Pattern, index: nat)

  /** Some match of the shape's pattern captures `x` in the shape's group. */
  ghost predicate ShapeCaptures(find: Finder, shape: Shape, text: string, x: string) {
    Captured(find, shape.pattern, text, shape.index, x)
  }

  /** The captures of every shape of the table, shape by shape in table order
      (not by position in the text), with no deduplication. */
  function ExtractShapes(find: Finder, shapes: seq<Shape>, text: string): (r: seq<string>)
    ensures forall k :: 0 <= k < |r| ==> r[k] != ""
    ensures forall x :: x in r <==> exists s :: s in shapes && ShapeCaptures(find, s, text, x)
  {
    if |shapes| == 0 then []
    else
      assert forall s :: s in shapes <==> s == shapes[0] || s in shapes[1..] by {
        assert shapes == [shapes[0]] + shapes[1..];
      }
      assert forall x :: x in ExtractInfo(find, shapes[0].pattern, text, shapes[0].index) <==> ShapeCaptures(find, shapes[0], text, x);
      ExtractInfo(find, shapes[0].pattern, text, shapes[0].index) + ExtractShapes(find, shapes[1..], text)
  }

  /** A one-row table yields that row's captures. */
  lemma ExtractShapesSingle(find: Finder, shape: Shape, text: string)
    ensures ExtractShapes(find, [shape], text) == ExtractInfo(find, shape.pattern, text, shape.index)
  {
    assert [shape][1..] == [];
  }

  /** Splitting a table splits its result at the same place: every capture of an
      earlier shape precedes every capture of a later one. */
  lemma {:induction false} ExtractShapesAppend(find: Finder, a: seq<Shape>, b: seq<Shape>, text: string)
    ensures ExtractShapes(find, a + b, text) == ExtractShapes(find, a, text) + ExtractShapes(find, b, text)
    decreases |a|
  {
    if |a| == 0 {
      assert a + b == b;
    } else {
      assert (a + b)[0] == a[0];
      assert (a + b)[1..] == a[1..] + b;
      ExtractShapesAppend(find, a[1..], b, text);
    }
  }

  /** Shape `k`'s captures form one block, after those of the shapes before it
      and before those of the shapes after it. */
  lemma ExtractShapesBlock(find: Finder, shapes: seq<Shape>, text: string, k: nat)
    requires k < |shapes|
    ensures ExtractShapes(find, shapes, text) ==
      ExtractShapes(find, shapes[..k], text)
      + ExtractInfo(find, shapes[k].pattern, text, shapes[k].index)
      + ExtractShapes(find, shapes[k + 1..], text)
  {
    assert shapes == shapes[..k] + shapes[k..];
    ExtractShapesAppend(find, shapes[..k], shapes[k..], text);
    assert shapes[k..][1..] == shapes[k + 1..];
  }
}
