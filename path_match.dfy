/** The walk of lookup_tree over a path: the path is cut into segments at
    '/', each segment is looked up among the children of the node the
    previous one matched, and the walk stops at the first matched node that
    shares a feature bit with the requested attribute. */
module PathMatch {
  import opened ByteStrings
  import opened RuleTree

  /** The segments of s, the path after its leading '/', in the order the
      walk visits them: s cut at every '/', where a single '/' at the very
      end closes the last segment instead of opening an empty one. The first
      segment is visited even when it is empty. */
  function Segments(s: seq<byte>): (segs: seq<seq<byte>>)
    ensures |segs| >= 1
    decreases |s|
  {
    var l := SegLen(s);
    if l + 1 >= |s| then [s[..l]] else [s[..l]] + Segments(s[l + 1..])
  }

  /** The segments joined back together with '/' between them. */
  function Join(segs: seq<seq<byte>>): seq<byte>
    requires |segs| >= 1
  {
    if |segs| == 1 then segs[0] else segs[0] + [SLASH] + Join(segs[1..])
  }

  predicate NoSlash(s: seq<byte>) {
    forall i :: 0 <= i < |s| ==> s[i] != SLASH
  }

  /** No segment holds a '/'. */
  lemma {:induction false} SegmentsHaveNoSlash(s: seq<byte>)
    ensures forall k :: 0 <= k < |Segments(s)| ==> NoSlash(Segments(s)[k])
    decreases |s|
  {
    var l := SegLen(s);
    SegLenNoSlash(s);
    if l + 1 < |s| {
      var tail := s[l + 1..];
      SegmentsHaveNoSlash(tail);
      var segs := Segments(s);
      assert segs == [s[..l]] + Segments(tail);
      forall k | 0 <= k < |segs| ensures NoSlash(segs[k]) {
        if k > 0 { assert segs[k] == Segments(tail)[k - 1]; }
      }
    }
  }

  lemma {:induction false} JoinCons(head: seq<byte>, rest: seq<seq<byte>>)
    requires |rest| >= 1
    ensures Join([head] + rest) == head + [SLASH] + Join(rest)
  {
    assert ([head] + rest)[1..] == rest;
  }

  lemma {:induction false} SegmentsCons(s: seq<byte>)
    requires SegLen(s) + 1 < |s|
    ensures Segments(s) == [s[..SegLen(s)]] + Segments(s[SegLen(s) + 1..])
  {
  }

  lemma {:induction false} CutAtSlash(s: seq<byte>, l: nat)
    requires l < |s| && s[l] == SLASH
    ensures s == s[..l] + [SLASH] + s[l + 1..]
  {
  }

  lemma {:induction false} RejoinTail(head: seq<byte>, tail: seq<byte>, j: seq<byte>)
    requires j == tail || j + [SLASH] == tail
    ensures var s := head + [SLASH] + tail;
            head + [SLASH] + j == s || head + [SLASH] + j + [SLASH] == s
  {
    if j + [SLASH] == tail {
      assert head + [SLASH] + j + [SLASH] == head + [SLASH] + (j + [SLASH]);
    }
  }

  /** Segments is a faithful cut: joining the segments with '/' gives the
      path back, short of one trailing '/'. */
  lemma {:induction false} SegmentsJoin(s: seq<byte>)
    ensures Join(Segments(s)) == s || Join(Segments(s)) + [SLASH] == s
    decreases |s|
  {
    var l := SegLen(s);
    var head := s[..l];
    if l + 1 < |s| {
      var tail := s[l + 1..];
      SegmentsJoin(tail);
      SegmentsCons(s);
      CutAtSlash(s, l);
      JoinCons(head, Segments(tail));
      RejoinTail(head, tail, Join(Segments(tail)));
    } else if l == |s| {
      assert head == s;
    } else {
      assert s == head + [SLASH];
    }
  }

  lemma {:induction false} SegLenAppendSlash(s: seq<byte>)
    ensures SegLen(s + [SLASH]) == SegLen(s)
    decreases |s|
  {
    if s != [] && s[0] != SLASH {
      assert (s + [SLASH])[1..] == s[1..] + [SLASH];
      SegLenAppendSlash(s[1..]);
    }
  }

  /** A single trailing '/' adds no segment: "/a/b/" is walked as "/a/b". */
  lemma {:induction false} SegmentsTrailingSlash(s: seq<byte>)
    requires s != [] && s[|s| - 1] != SLASH
    ensures Segments(s + [SLASH]) == Segments(s)
    decreases |s|
  {
    var s' := s + [SLASH];
    var l := SegLen(s);
    SegLenAppendSlash(s);
    assert s'[..l] == s[..l];
    if l + 1 < |s| {
      assert s'[l + 1..] == s[l + 1..] + [SLASH];
      SegmentsTrailingSlash(s[l + 1..]);
    } else {
      assert l == |s|;
    }
  }

  /** The walk of a path and of the same path with one more '/' at its
      end are the same walk. */
  lemma {:induction false} WalkTrailingSlash(s: Search, path: seq<byte>)
    requires |path| >= 2 && path[|path| - 1] != SLASH
    ensures Walk(s, path + [SLASH], 0, 1) == Walk(s, path, 0, 1)
  {
    var p' := path + [SLASH];
    assert p'[1..] == path[1..] + [SLASH];
    SegmentsTrailingSlash(path[1..]);
    WalkFollowsSegments(s, path, 0, 1);
    WalkFollowsSegments(s, p', 0, 1);
  }

  /** The two tests lookup_tree makes at each segment: find(base, name)
      searches the children of base for the segment name (lookup_dir in the
      boot mode, then in the other), shares(off) tests whether the node at
      off has a feature bit in common with the attribute. */
  datatype Search = Search(find: (nat, seq<byte>) -> Probe, shares: nat -> bool)

  /** A node of t shares a bit with the attribute. */
  predicate Shares(t: Tree, off: nat, attribute: nat) {
    t.node(off).Some? && BitAnd(t.node(off).value.featureType, attribute) != 0
  }

  function SearchOf(t: Tree, isRecovery: bool, attribute: nat): (s: Search)
    ensures forall b, n :: s.find(b, n) == FindNode(t, b, n, isRecovery)
    ensures forall off :: s.shares(off) == Shares(t, off, attribute)
  {
    Search((b: nat, n: seq<byte>) => FindNode(t, b, n, isRecovery), (off: nat) => Shares(t, off, attribute))
  }

  /** Where the walk of a path ends: at the node off that shares a bit
      with the attribute, told whether its segment ends the path (last); at
      no such node; or at a read out of the buffer (undefined behaviour). */
  datatype Stop = At(off: nat, last: bool) | NoMatch | OutOfBuffer

  /** The do-while loop of lookup_tree, from the segment that starts at byte
      i of the path, below the node base: an empty segment or a segment
      with no match ends it, a matched node that shares a bit stops it, and
      otherwise the walk moves below that node, past the '/'. */
  function Walk(s: Search, path: seq<byte>, base: nat, i: nat): (r: Stop)
    requires i <= |path|
    ensures r.At? ==> s.shares(r.off)
    decreases |path| - i
  {
    var rest := path[i..];
    var l := SegLen(rest);
    if l == 0 then NoMatch
    else
      match s.find(base, rest[..l])
      case Fault => OutOfBuffer
      case Absent => NoMatch
      case Found(off) =>
        if s.shares(off) then At(off, l + 1 >= |rest|)
        else
          var next := i + l + (if l < |rest| then 1 else 0);
          if next < |path| then Walk(s, path, off, next)
          else NoMatch
  }

  /** The same walk told segment by segment, below base. */
  function WalkSegments(s: Search, base: nat, segs: seq<seq<byte>>): Stop
    requires |segs| >= 1
    decreases |segs|
  {
    if segs[0] == [] then NoMatch
    else
      match s.find(base, segs[0])
      case Fault => OutOfBuffer
      case Absent => NoMatch
      case Found(off) =>
        if s.shares(off) then At(off, |segs| == 1)
        else if |segs| == 1 then NoMatch
        else WalkSegments(s, off, segs[1..])
  }

  /** One step of the cut: the first segment, whether it is the last, and
      the segments after it, which are those of the path past its '/'. */
  lemma {:induction false} SegmentsStep(path: seq<byte>, i: nat)
    requires i <= |path|
    ensures var rest := path[i..]; var l := SegLen(rest); var segs := Segments(rest);
            && segs[0] == rest[..l]
            && (|segs| == 1 <==> l + 1 >= |rest|)
            && (l + 1 < |rest| ==> segs[1..] == Segments(path[i + l + 1..]))
  {
    var rest := path[i..];
    var l := SegLen(rest);
    if l + 1 < |rest| {
      assert path[i + l + 1..] == rest[l + 1..];
    }
  }

  /** The byte-by-byte loop of lookup_tree visits exactly the segments of
      the path, in order, and knows which one is the last. */
  lemma {:induction false} WalkFollowsSegments(s: Search, path: seq<byte>, base: nat, i: nat)
    requires i <= |path|
    ensures Walk(s, path, base, i) == WalkSegments(s, base, Segments(path[i..]))
    decreases |path| - i
  {
    var rest := path[i..];
    var l := SegLen(rest);
    SegmentsStep(path, i);
    if l > 0 && l + 1 < |rest| {
      var p := s.find(base, rest[..l]);
      if p.Found? {
        WalkFollowsSegments(s, path, p.off, i + l + 1);
      }
    }
  }

  /** The nodes the walk matches, one per segment, each found below the one
      before it, up to an empty segment, a segment with no match, or a read
      out of the buffer (fault). */
  datatype Trail = Trail(nodes: seq<nat>, fault: bool)

  function TrailOf(s: Search, base: nat, segs: seq<seq<byte>>): (r: Trail)
    ensures |r.nodes| <= |segs|
    ensures |r.nodes| > 0 ==> s.find(base, segs[0]) == Found(r.nodes[0])
    ensures forall k :: 0 < k < |r.nodes| ==> s.find(r.nodes[k - 1], segs[k]) == Found(r.nodes[k])
    ensures forall k :: 0 <= k < |r.nodes| ==> segs[k] != []
    ensures |r.nodes| < |segs| && !r.fault ==>
              var from := if r.nodes == [] then base else r.nodes[|r.nodes| - 1];
              segs[|r.nodes|] == [] || s.find(from, segs[|r.nodes|]) == Absent
    ensures r.fault ==>
              var from := if r.nodes == [] then base else r.nodes[|r.nodes| - 1];
              |r.nodes| < |segs| && s.find(from, segs[|r.nodes|]) == Fault
    decreases |segs|
  {
    if segs == [] || segs[0] == [] then Trail([], false)
    else
      match s.find(base, segs[0])
      case Fault => Trail([], true)
      case Absent => Trail([], false)
      case Found(off) =>
        var rest := TrailOf(s, off, segs[1..]);
        Trail([off] + rest.nodes, rest.fault)
  }

  /** nodes[k] is the first node of the trail that shares a bit with the
      attribute. */
  predicate FirstSharing(s: Search, nodes: seq<nat>, k: int) {
    && 0 <= k < |nodes|
    && s.shares(nodes[k])
    && forall j :: 0 <= j < k ==> !s.shares(nodes[j])
  }

  predicate NoneSharing(s: Search, nodes: seq<nat>) {
    forall k :: 0 <= k < |nodes| ==> !s.shares(nodes[k])
  }

  /** The segment walk stops at the first trail node that shares a bit
      with the attribute, and only there. */
  lemma {:induction false} SegmentsStopAtFirstSharing(s: Search, base: nat, segs: seq<seq<byte>>, k: nat)
    requires |segs| >= 1
    requires FirstSharing(s, TrailOf(s, base, segs).nodes, k)
    ensures WalkSegments(s, base, segs) == At(TrailOf(s, base, segs).nodes[k], k + 1 == |segs|)
    decreases |segs|
  {
    var tr := TrailOf(s, base, segs);
    var off := s.find(base, segs[0]).off;
    var sub := TrailOf(s, off, segs[1..]);
    assert tr.nodes == [off] + sub.nodes;
    if k > 0 {
      assert !s.shares(off) by { assert tr.nodes[0] == off; }
      assert |segs| > 1;
      assert FirstSharing(s, sub.nodes, k - 1) by {
        forall j | 0 <= j < k - 1 ensures !s.shares(sub.nodes[j]) {
          assert sub.nodes[j] == tr.nodes[j + 1];
        }
      }
      SegmentsStopAtFirstSharing(s, off, segs[1..], k - 1);
    }
  }

  /** When no trail node shares a bit with the attribute, the segment walk
      finds nothing, or reads out of the buffer exactly where the trail
      does. */
  lemma {:induction false} SegmentsStopNowhere(s: Search, base: nat, segs: seq<seq<byte>>)
    requires |segs| >= 1
    requires NoneSharing(s, TrailOf(s, base, segs).nodes)
    ensures WalkSegments(s, base, segs) == if TrailOf(s, base, segs).fault then OutOfBuffer else NoMatch
    decreases |segs|
  {
    var tr := TrailOf(s, base, segs);
    if segs[0] != [] && s.find(base, segs[0]).Found? {
      var off := s.find(base, segs[0]).off;
      var sub := TrailOf(s, off, segs[1..]);
      assert tr.nodes == [off] + sub.nodes && tr.fault == sub.fault;
      assert !s.shares(off) by { assert tr.nodes[0] == off; }
      if |segs| == 1 {
        assert sub == Trail([], false);
      } else {
        forall j | 0 <= j < |sub.nodes| ensures !s.shares(sub.nodes[j]) {
          assert sub.nodes[j] == tr.nodes[j + 1];
        }
        SegmentsStopNowhere(s, off, segs[1..]);
      }
    }
  }

  /** The walk of a whole path ("/" followed by its segments): it stops at
      the first node of the path's trail that shares a bit with the
      attribute, with last set exactly when that node's segment is the
      final one; an ancestor's bits never decide for a deeper segment, and
      a trail none of whose nodes shares a bit gives no match. */
  lemma {:induction false} WalkStopsAtFirstSharing(s: Search, path: seq<byte>)
    requires path != []
    ensures var segs := Segments(path[1..]);
            var tr := TrailOf(s, 0, segs);
            && (forall k :: FirstSharing(s, tr.nodes, k) ==>
                  Walk(s, path, 0, 1) == At(tr.nodes[k], k + 1 == |segs|))
            && (NoneSharing(s, tr.nodes) ==>
                  Walk(s, path, 0, 1) == if tr.fault then OutOfBuffer else NoMatch)
  {
    var segs := Segments(path[1..]);
    var tr := TrailOf(s, 0, segs);
    WalkFollowsSegments(s, path, 0, 1);
    forall k | FirstSharing(s, tr.nodes, k)
      ensures Walk(s, path, 0, 1) == At(tr.nodes[k], k + 1 == |segs|)
    {
      SegmentsStopAtFirstSharing(s, 0, segs, k);
    }
    if NoneSharing(s, tr.nodes) {
      SegmentsStopNowhere(s, 0, segs);
    }
  }
}
