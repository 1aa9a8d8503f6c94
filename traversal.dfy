/**
 * The co-traversal of a configuration tree and a list of path segments that
 * decides whether one blacklist pattern hits a configuration block.
 * Stepping into a dictionary consumes a segment; stepping across an array
 * never does, and fans out over every element.
 */
module Traversal {
  import opened Wrappers
  import opened ConfigTree

  /** A compiled pattern, seen only through its string test. The regular
      expression dialect is not modelled: any such test may stand here. */
  type Matcher = string -> bool

  /** Whether the pattern hits the node when the walk continues along `segs`.
      This is the specification of the traversal, case by case. */
  function Blacklisted(m: Matcher, segs: seq<string>, node: Node): bool
    decreases node, 0
  {
    match node
    case Dict(fields) =>
      if |segs| == 0 then
        // a field whose name matches is enough, whatever its value
        exists i | 0 <= i < |fields| :: m(fields[i].0)
      else
        (match IndexOf(fields, segs[0])
         case None => false
         case Some(i) =>
           var child := fields[i].1;
           if |segs| == 1 && StringOf(child).Some? then m(StringOf(child).value)
           else child.IsContainer() && Blacklisted(m, segs[1..], child))
    case Arr(items) =>
      exists i | 0 <= i < |items| :: ElementHit(m, segs, items[i])
    case Scalar(_) =>
      false
  }

  /** One array element's contribution: its string value is tested only when
      no segments remain; a nested container is walked with the same,
      unconsumed segments. */
  function ElementHit(m: Matcher, segs: seq<string>, item: Node): bool
    decreases item, 1
  {
    || (|segs| == 0 && StringOf(item).Some? && m(StringOf(item).value))
    || (item.IsContainer() && Blacklisted(m, segs, item))
  }

  /** The traversal as the source runs it: a recursive walk whose array
      cases count down over the elements and stop at the first hit. */
  method IsBlacklistedBlock(m: Matcher, segments: seq<string>, current: Node) returns (hit: bool)
    ensures hit == Blacklisted(m, segments, current)
    decreases current
  {
    if current.Dict? {
      var fields := current.fields;
      if |segments| == 0 {
        var names := FieldNames(fields);
        for i := 0 to |names|
          invariant forall j :: 0 <= j < i ==> !m(names[j])
        {
          if m(names[i]) {
            return true;
          }
        }
        return false;
      }
      var idx := IndexOf(fields, segments[0]);
      if idx.None? {
        return false;
      }
      var child := fields[idx.value].1;
      if |segments| == 1 {
        var val := StringOf(child);
        if val.Some? {
          return m(val.value);
        }
      }
      // not a string: traverse, if the field holds a configuration object
      if !child.IsContainer() {
        return false;
      }
      hit := IsBlacklistedBlock(m, segments[1..], child);
      return;
    }
    if current.Arr? {
      var items := current.items;
      var count := |items|;
      while count > 0
        invariant 0 <= count <= |items|
        invariant forall j :: count <= j < |items| ==> !ElementHit(m, segments, items[j])
      {
        var item := items[count - 1];
        if |segments| == 0 {
          var val := StringOf(item);
          if val.Some? && m(val.value) {
            return true;
          }
        }
        if item.IsContainer() {
          var sub := IsBlacklistedBlock(m, segments, item);
          if sub {
            return true;
          }
        }
        count := count - 1;
      }
      return false;
    }
    return false;
  }

  /** The strings the traversal tests against the pattern, with array
      elements taken in element order.
      They depend on the segments and the tree only, not on the pattern. */
  function Probes(segs: seq<string>, node: Node): seq<string>
    decreases node, 0
  {
    match node
    case Dict(fields) =>
      if |segs| == 0 then FieldNames(fields)
      else
        (match IndexOf(fields, segs[0])
         case None => []
         case Some(i) =>
           var child := fields[i].1;
           if |segs| == 1 && StringOf(child).Some? then [StringOf(child).value]
           else if child.IsContainer() then Probes(segs[1..], child)
           else [])
    case Arr(items) =>
      ItemsProbes(segs, items)
    case Scalar(_) =>
      []
  }

  /** The probes of every array element, in element order. */
  function ItemsProbes(segs: seq<string>, items: seq<Node>): seq<string>
    decreases items
  {
    if items == [] then []
    else
      var item := items[0];
      (if |segs| == 0 && StringOf(item).Some? then [StringOf(item).value] else [])
      + (if item.IsContainer() then Probes(segs, item) else [])
      + ItemsProbes(segs, items[1..])
  }

  /** Some string of `strs` satisfies the pattern. */
  predicate AnyMatch(m: Matcher, strs: seq<string>)
  {
    exists k | 0 <= k < |strs| :: m(strs[k])
  }

  lemma AnyMatchAppend(m: Matcher, a: seq<string>, b: seq<string>)
    ensures AnyMatch(m, a + b) <==> AnyMatch(m, a) || AnyMatch(m, b)
  {
    if AnyMatch(m, a + b) {
      var k :| 0 <= k < |a + b| && m((a + b)[k]);
      if k >= |a| {
        assert b[k - |a|] == (a + b)[k];
      }
    }
    if AnyMatch(m, a) {
      var k :| 0 <= k < |a| && m(a[k]);
      assert (a + b)[k] == a[k];
    }
    if AnyMatch(m, b) {
      var k :| 0 <= k < |b| && m(b[k]);
      assert (a + b)[|a| + k] == b[k];
    }
  }

  /** The decision is the pattern tested on the probes: the pattern enters
      the traversal only through its string test on those candidates. */
  lemma {:induction false} ProbesDecide(m: Matcher, segs: seq<string>, node: Node)
    ensures Blacklisted(m, segs, node) <==> AnyMatch(m, Probes(segs, node))
    decreases node, 0
  {
    match node
    case Dict(fields) =>
      if |segs| == 0 {
        var names := FieldNames(fields);
        if AnyMatch(m, names) {
          var k :| 0 <= k < |names| && m(names[k]);
          assert m(fields[k].0);
        }
      } else {
        match IndexOf(fields, segs[0])
        case None =>
        case Some(i) =>
          var child := fields[i].1;
          if |segs| == 1 && StringOf(child).Some? {
            assert [StringOf(child).value][0] == StringOf(child).value;
          } else if child.IsContainer() {
            ProbesDecide(m, segs[1..], child);
          }
      }
    case Arr(items) =>
      ItemsProbesDecide(m, segs, items);
    case Scalar(_) =>
  }

  lemma {:induction false} ItemsProbesDecide(m: Matcher, segs: seq<string>, items: seq<Node>)
    ensures (exists i | 0 <= i < |items| :: ElementHit(m, segs, items[i]))
      <==> AnyMatch(m, ItemsProbes(segs, items))
    decreases items
  {
    if items != [] {
      var item := items[0];
      var own := if |segs| == 0 && StringOf(item).Some? then [StringOf(item).value] else [];
      var nested := if item.IsContainer() then Probes(segs, item) else [];
      ItemsProbesDecide(m, segs, items[1..]);
      if item.IsContainer() {
        ProbesDecide(m, segs, item);
      }
      AnyMatchAppend(m, own + nested, ItemsProbes(segs, items[1..]));
      AnyMatchAppend(m, own, nested);
      if own != [] {
        assert own[0] == StringOf(item).value;
      }
      assert ElementHit(m, segs, item) <==> AnyMatch(m, own + nested);
      if exists i | 0 <= i < |items| :: ElementHit(m, segs, items[i]) {
        var i :| 0 <= i < |items| && ElementHit(m, segs, items[i]);
        if i > 0 {
          assert items[1..][i - 1] == items[i];
        }
      }
      if exists i | 0 <= i < |items[1..]| :: ElementHit(m, segs, items[1..][i]) {
        var i :| 0 <= i < |items[1..]| && ElementHit(m, segs, items[1..][i]);
        assert items[i + 1] == items[1..][i];
      }
    }
  }

  /** A pattern that accepts every string the other accepts hits every
      block the other hits. */
  lemma Monotone(m1: Matcher, m2: Matcher, segs: seq<string>, node: Node)
    requires forall s :: m1(s) ==> m2(s)
    ensures Blacklisted(m1, segs, node) ==> Blacklisted(m2, segs, node)
  {
    ProbesDecide(m1, segs, node);
    ProbesDecide(m2, segs, node);
  }

  /** A container wrapped in `depth` one-element arrays. */
  function Nest(depth: nat, n: Node): Node
  {
    if depth == 0 then n else Arr([Nest(depth - 1, n)])
  }

  /** Arrays are transparent to path traversal: wrapping a dictionary or
      array in any number of one-element arrays consumes no segment and
      leaves the decision unchanged. */
  lemma {:induction false} ArrayTransparent(m: Matcher, segs: seq<string>, n: Node, depth: nat)
    requires n.IsContainer()
    ensures Blacklisted(m, segs, Nest(depth, n)) == Blacklisted(m, segs, n)
  {
    if depth > 0 {
      ArrayTransparent(m, segs, n, depth - 1);
      var inner := Nest(depth - 1, n);
      assert inner.IsContainer();
      assert Arr([inner]).items[0] == inner;
      assert ElementHit(m, segs, inner) == Blacklisted(m, segs, inner);
    }
  }

  /** Fan-out is a logical or: an array hits exactly when one of its two
      parts does. */
  lemma ArrayFanOut(m: Matcher, segs: seq<string>, a: seq<Node>, b: seq<Node>)
    ensures Blacklisted(m, segs, Arr(a + b))
      <==> Blacklisted(m, segs, Arr(a)) || Blacklisted(m, segs, Arr(b))
  {
    if Blacklisted(m, segs, Arr(a + b)) {
      var i :| 0 <= i < |a + b| && ElementHit(m, segs, (a + b)[i]);
      if i >= |a| {
        assert (a + b)[i] == b[i - |a|];
      } else {
        assert (a + b)[i] == a[i];
      }
    }
    if Blacklisted(m, segs, Arr(a)) {
      var i :| 0 <= i < |a| && ElementHit(m, segs, a[i]);
      assert (a + b)[i] == a[i];
    }
    if Blacklisted(m, segs, Arr(b)) {
      var i :| 0 <= i < |b| && ElementHit(m, segs, b[i]);
      assert (a + b)[|a| + i] == b[i];
    }
  }

  /** The order in which array elements are visited does not matter (the
      source visits them last to first): arrays with the same elements give
      the same decision. */
  lemma ArrayOrderIrrelevant(m: Matcher, segs: seq<string>, a: seq<Node>, b: seq<Node>)
    requires forall x :: x in a <==> x in b
    ensures Blacklisted(m, segs, Arr(a)) == Blacklisted(m, segs, Arr(b))
  {
    if Blacklisted(m, segs, Arr(a)) {
      var i :| 0 <= i < |a| && ElementHit(m, segs, a[i]);
      assert a[i] in b;
      var j :| 0 <= j < |b| && b[j] == a[i];
    }
    if Blacklisted(m, segs, Arr(b)) {
      var j :| 0 <= j < |b| && ElementHit(m, segs, b[j]);
      assert b[j] in a;
      var i :| 0 <= i < |a| && a[i] == b[j];
    }
  }
}
