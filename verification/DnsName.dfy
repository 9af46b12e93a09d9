/** DNS names: sections 3.1 and 4.1.4 of RFC 1035, as mongoose writes and reads them. */
module DnsName {

  import opened Bytes
  import opened MbufModule

  // Writing a name.

  /** What strchr finds: the first dot, or the end of the name. */
  function FirstDot(name: Bytes): (s: nat)
    ensures s <= |name| && (s < |name| ==> name[s] == DOT)
    ensures forall i :: 0 <= i < s ==> name[i] != DOT
  {
    if name == [] || name[0] == DOT then 0
    else
      var s := FirstDot(name[1..]);
      assert forall i :: 0 < i < s + 1 ==> name[i] == name[1..][i - 1];
      s + 1
  }

  /** Every label of the name is at most 127 bytes long, which is all the writer asks for. */
  predicate Encodable(name: Bytes) {
    var s := FirstDot(name);
    s <= 127 && (s < |name| ==> Encodable(name[s + 1..]))
  }

  /** A label as it is written: its length, then its bytes. */
  function LabelOf(name: Bytes, s: nat): (r: Bytes)
    requires s <= |name| && s <= 127
    ensures |r| == s + 1
  {
    [s] + name[..s]
  }

  /** What the writer has appended when it returns: all of the name, or the labels in front of
      the first one it refuses. */
  function Encoded(name: Bytes): Bytes {
    var s := FirstDot(name);
    if s > 127 then []
    else LabelOf(name, s) + (if s < |name| then Encoded(name[s + 1..]) else [NUL])
  }

  // Reading a name: one iteration of the loop.

  /** Where the loop of mg_dns_uncompress_name stands: the next byte to read, and how many
      bytes have been written. */
  datatype Cursor = Cursor(pos: nat, used: nat)

  /** What an iteration does: Finish at the zero byte, Fail on a malformed name, Follow a
      pointer, copy a whole Label, or Fill the destination. */
  datatype Action = Finish | Fail | Follow(off: nat) | Label(n: nat) | Fill(n: nat)

  predicate IsPointer(b: byte) { b >= 64 }

  function Act(pkt: Bytes, room: nat, c: Cursor): (a: Action)
    requires c.pos < |pkt| && c.used <= room
    ensures a.Follow? ==> a.off < |pkt| && IsPointer(pkt[c.pos])
    ensures a.Label? ==> 0 < a.n && c.used + a.n < room && c.pos + 1 + a.n < |pkt|
    ensures a.Fill? ==> c.used + a.n == room && c.pos + 1 + a.n < |pkt|
  {
    var b := pkt[c.pos];
    if b == 0 then Finish
    else if c.pos + 1 >= |pkt| then Fail
    else if IsPointer(b) then
      var off := b % 64 * 256 + pkt[c.pos + 1];
      if off >= |pkt| then Fail else Follow(off)
    else
      var leeway := room - c.used;
      var n := if b > leeway then leeway else b;
      if c.pos + 1 + n >= |pkt| then Fail
      else if n == leeway then Fill(n)
      else Label(n)
  }

  // Reading a name: whole runs.

  /** The bytes returned, that is dst[..result], or that the loop is still running. */
  datatype Outcome = Running | Returned(text: Bytes)

  /** The run from a position, with out already written, for at most n iterations. */
  function Run(pkt: Bytes, room: nat, pos: nat, out: Bytes, n: nat): (r: Outcome)
    requires pos < |pkt| && |out| <= room
    ensures r.Returned? ==> |r.text| <= room
    decreases n
  {
    if n == 0 then Running
    else
      match Act(pkt, room, Cursor(pos, |out|))
      case Finish => Returned(if out == [] then [] else out[..|out| - 1])
      case Fail => Returned([])
      case Follow(off) => Run(pkt, room, off, out, n - 1)
      case Label(k) => Run(pkt, room, pos + 1 + k, out + pkt[pos + 1..pos + 1 + k] + [DOT], n - 1)
      case Fill(k) => Returned(out + pkt[pos + 1..pos + 1 + k])
  }

  /** The result does not depend on how many more iterations were allowed. */
  lemma {:induction false} RunLonger(pkt: Bytes, room: nat, pos: nat, out: Bytes, n: nat, more: nat)
    requires pos < |pkt| && |out| <= room && n <= more && Run(pkt, room, pos, out, n).Returned?
    ensures Run(pkt, room, pos, out, more) == Run(pkt, room, pos, out, n)
    decreases n
  {
    hide Act;
    match Act(pkt, room, Cursor(pos, |out|))
    case Follow(off) => RunLonger(pkt, room, off, out, n - 1, more - 1);
    case Label(k) => RunLonger(pkt, room, pos + 1 + k, out + pkt[pos + 1..pos + 1 + k] + [DOT], n - 1, more - 1);
    case _ =>
  }

  /** The loop ends. */
  ghost predicate Ends(pkt: Bytes, room: nat, pos: nat, out: Bytes)
    requires pos < |pkt| && |out| <= room
  {
    exists n: nat :: Run(pkt, room, pos, out, n).Returned?
  }

  /** The bytes it returns when it does. */
  ghost function Result(pkt: Bytes, room: nat, pos: nat, out: Bytes): (r: Bytes)
    requires pos < |pkt| && |out| <= room && Ends(pkt, room, pos, out)
    ensures |r| <= room
  {
    var n: nat :| Run(pkt, room, pos, out, n).Returned?;
    Run(pkt, room, pos, out, n).text
  }

  lemma ResultIs(pkt: Bytes, room: nat, pos: nat, out: Bytes, n: nat)
    requires pos < |pkt| && |out| <= room && Run(pkt, room, pos, out, n).Returned?
    ensures Ends(pkt, room, pos, out) && Result(pkt, room, pos, out) == Run(pkt, room, pos, out, n).text
  {
    var m: nat :| Run(pkt, room, pos, out, m).Returned?
        && Result(pkt, room, pos, out) == Run(pkt, room, pos, out, m).text;
    if m <= n {
      RunLonger(pkt, room, pos, out, m, n);
    } else {
      RunLonger(pkt, room, pos, out, n, m);
    }
  }

  // Termination: the run as a walk over cursors.

  /** The cursor after n iterations, as long as the loop is still running then. */
  function After(pkt: Bytes, room: nat, c: Cursor, n: nat): (r: Option<Cursor>)
    requires c.pos < |pkt| && c.used <= room
    ensures r.Some? ==> r.value.pos < |pkt| && r.value.used <= room
    decreases n
  {
    if n == 0 then Some(c)
    else
      match Act(pkt, room, c)
      case Follow(off) => After(pkt, room, Cursor(off, c.used), n - 1)
      case Label(k) => After(pkt, room, Cursor(c.pos + 1 + k, c.used + k + 1), n - 1)
      case _ => None
  }

  lemma {:induction false} AfterIsRunning(pkt: Bytes, room: nat, pos: nat, out: Bytes, n: nat)
    requires pos < |pkt| && |out| <= room
    ensures After(pkt, room, Cursor(pos, |out|), n).Some? <==> Run(pkt, room, pos, out, n).Running?
    decreases n
  {
    hide Act;
    if n > 0 {
      match Act(pkt, room, Cursor(pos, |out|))
      case Follow(off) => AfterIsRunning(pkt, room, off, out, n - 1);
      case Label(k) => AfterIsRunning(pkt, room, pos + 1 + k, out + pkt[pos + 1..pos + 1 + k] + [DOT], n - 1);
      case _ =>
    }
  }

  lemma {:induction false} AfterAdds(pkt: Bytes, room: nat, c: Cursor, i: nat, j: nat)
    requires c.pos < |pkt| && c.used <= room && After(pkt, room, c, i).Some?
    ensures After(pkt, room, c, i + j) == After(pkt, room, After(pkt, room, c, i).value, j)
    decreases i
  {
    hide Act;
    if i > 0 {
      match Act(pkt, room, c)
      case Follow(off) => AfterAdds(pkt, room, Cursor(off, c.used), i - 1, j);
      case Label(k) => AfterAdds(pkt, room, Cursor(c.pos + 1 + k, c.used + k + 1), i - 1, j);
      case _ =>
    }
  }

  lemma {:induction false} AfterEarlier(pkt: Bytes, room: nat, c: Cursor, i: nat, n: nat)
    requires c.pos < |pkt| && c.used <= room && i <= n && After(pkt, room, c, n).Some?
    ensures After(pkt, room, c, i).Some?
    decreases i
  {
    hide Act;
    if i > 0 {
      match Act(pkt, room, c)
      case Follow(off) => AfterEarlier(pkt, room, Cursor(off, c.used), i - 1, n - 1);
      case Label(k) => AfterEarlier(pkt, room, Cursor(c.pos + 1 + k, c.used + k + 1), i - 1, n - 1);
      case _ =>
    }
  }

  /** A cursor that comes back once comes back for ever. */
  lemma {:induction false} CycleRepeats(pkt: Bytes, room: nat, c: Cursor, period: nat, times: nat)
    requires c.pos < |pkt| && c.used <= room && After(pkt, room, c, period) == Some(c)
    ensures After(pkt, room, c, times * period) == Some(c)
    decreases times
  {
    if times > 0 {
      CycleRepeats(pkt, room, c, period, times - 1);
      AfterAdds(pkt, room, c, (times - 1) * period, period);
      assert times * period == (times - 1) * period + period;
    } else {
      assert times * period == 0;
    }
  }

  /** The same cursor was met after i and after j iterations. */
  ghost predicate Meets(pkt: Bytes, room: nat, c: Cursor, i: nat, j: nat)
    requires c.pos < |pkt| && c.used <= room
  {
    i < j && After(pkt, room, c, i).Some? && After(pkt, room, c, i) == After(pkt, room, c, j)
  }

  lemma MeetingNeverEnds(pkt: Bytes, room: nat, c: Cursor, i: nat, j: nat, n: nat)
    requires c.pos < |pkt| && c.used <= room && Meets(pkt, room, c, i, j)
    ensures After(pkt, room, c, n).Some?
  {
    hide After, Act;
    var d, period := After(pkt, room, c, i).value, j - i;
    AfterAdds(pkt, room, c, i, period);
    CycleRepeats(pkt, room, d, period, n);
    var far := n * period;
    AfterAdds(pkt, room, c, i, far);
    AtLeast(n, period);
    AfterEarlier(pkt, room, c, n, i + far);
  }

  lemma AtLeast(n: nat, period: nat)
    requires period > 0
    ensures n * period >= n
  {
  }

  /** Two cursors between which the loop returns to the same place differ by pointers only. */
  lemma {:induction false} UsedGrows(pkt: Bytes, room: nat, c: Cursor, n: nat)
    requires c.pos < |pkt| && c.used <= room && After(pkt, room, c, n).Some?
    ensures c.used <= After(pkt, room, c, n).value.used
    ensures n > 0 && c.used == After(pkt, room, c, n).value.used ==> IsPointer(pkt[c.pos])
    decreases n
  {
    hide Act;
    if n > 0 {
      match Act(pkt, room, c)
      case Follow(off) => UsedGrows(pkt, room, Cursor(off, c.used), n - 1);
      case Label(k) => UsedGrows(pkt, room, Cursor(c.pos + 1 + k, c.used + k + 1), n - 1);
      case _ =>
    }
  }

  /** More numbers below a bound than the bound itself: two of them are equal. */
  lemma {:induction false} Pigeonhole(s: seq<nat>, bound: nat) returns (i: nat, j: nat)
    requires |s| > bound && forall k :: 0 <= k < |s| ==> s[k] < bound
    ensures i < j < |s| && s[i] == s[j]
    decreases bound
  {
    var last := |s| - 1;
    if k :| 0 <= k < last && s[k] == s[last] {
      i, j := k, last;
    } else {
      // the largest number is not needed once s[last] takes its place
      var t := seq(last, k requires 0 <= k < last => if s[k] == bound - 1 then s[last] else s[k]);
      i, j := Pigeonhole(t, bound - 1);
    }
  }

  /** How many cursors there are. */
  function Cursors(pkt: Bytes, room: nat): nat { |pkt| * (room + 1) }

  function Code(pkt: Bytes, c: Cursor): nat { c.pos + |pkt| * c.used }

  lemma CodeBounded(pkt: Bytes, room: nat, c: Cursor)
    requires c.pos < |pkt| && c.used <= room
    ensures Code(pkt, c) < Cursors(pkt, room)
  {
    assert |pkt| * c.used <= |pkt| * room;
    assert |pkt| * (room + 1) == |pkt| * room + |pkt|;
  }

  lemma CodeInjective(pkt: Bytes, c: Cursor, d: Cursor)
    requires c.pos < |pkt| && d.pos < |pkt| && Code(pkt, c) == Code(pkt, d)
    ensures c == d
  {
    if c.used < d.used {
      MultipleBelow(|pkt|, c.used, d.used);
    } else if d.used < c.used {
      MultipleBelow(|pkt|, d.used, c.used);
    }
  }

  lemma MultipleBelow(a: nat, x: nat, y: nat)
    requires x < y
    ensures a * x + a <= a * y
  {
    assert a * (x + 1) <= a * y;
  }

  /** A run that is still going after as many iterations as there are cursors has met one twice. */
  lemma LongRunMeets(pkt: Bytes, room: nat, c: Cursor) returns (i: nat, j: nat)
    requires c.pos < |pkt| && c.used <= room && After(pkt, room, c, Cursors(pkt, room)).Some?
    ensures j <= Cursors(pkt, room) && Meets(pkt, room, c, i, j)
  {
    hide After, Act, Code, Cursors;
    var n := Cursors(pkt, room);
    forall k: nat | k <= n
      ensures After(pkt, room, c, k).Some?
    {
      AfterEarlier(pkt, room, c, k, n);
    }
    var s: seq<nat> := seq(n + 1, k requires 0 <= k <= n => Code(pkt, After(pkt, room, c, k).value));
    forall k | 0 <= k < |s|
      ensures s[k] < n
    {
      CodeBounded(pkt, room, After(pkt, room, c, k).value);
    }
    i, j := Pigeonhole(s, n);
    CodeInjective(pkt, After(pkt, room, c, i).value, After(pkt, room, c, j).value);
  }

  /** A name ends within as many iterations as there are cursors, and otherwise the loop meets
      some cursor twice. */
  lemma EndsExactly(pkt: Bytes, room: nat, pos: nat, out: Bytes)
    requires pos < |pkt| && |out| <= room
    ensures Ends(pkt, room, pos, out) <==> Run(pkt, room, pos, out, Cursors(pkt, room)).Returned?
    ensures Ends(pkt, room, pos, out) <==> forall i: nat, j: nat :: !Meets(pkt, room, Cursor(pos, |out|), i, j)
  {
    hide Run, After, Act, Cursors;
    var c := Cursor(pos, |out|);
    var n := Cursors(pkt, room);
    AfterIsRunning(pkt, room, pos, out, n);
    if Run(pkt, room, pos, out, n).Running? {
      var i, j := LongRunMeets(pkt, room, c);
      forall m: nat
        ensures Run(pkt, room, pos, out, m).Running?
      {
        MeetingNeverEnds(pkt, room, c, i, j, m);
        AfterIsRunning(pkt, room, pos, out, m);
      }
    } else {
      forall i: nat, j: nat
        ensures !Meets(pkt, room, c, i, j)
      {
        if Meets(pkt, room, c, i, j) {
          MeetingNeverEnds(pkt, room, c, i, j, n);
        }
      }
    }
  }

  /** Where the loop meets itself, it stands at a pointer. */
  lemma MeetsAtPointer(pkt: Bytes, room: nat, c: Cursor, i: nat, j: nat)
    requires c.pos < |pkt| && c.used <= room && Meets(pkt, room, c, i, j)
    ensures IsPointer(pkt[After(pkt, room, c, i).value.pos])
  {
    AfterAdds(pkt, room, c, i, j - i);
    UsedGrows(pkt, room, After(pkt, room, c, i).value, j - i);
  }

  // Termination: what the bytes of the packet say about it.

  /** Where a pointer that stands at p leads, if one stands there and leads into the packet. */
  function Target(pkt: Bytes, p: nat): (t: Option<nat>)
    requires p < |pkt|
    ensures t.Some? ==> t.value < |pkt|
  {
    if p + 1 >= |pkt| || !IsPointer(pkt[p]) then None
    else
      var off := pkt[p] as int % 64 * 256 + pkt[p + 1] as int;
      if off < |pkt| then Some(off) else None
  }

  /** Where k pointers in a row lead from p. */
  function Hop(pkt: Bytes, p: nat, k: nat): (r: Option<nat>)
    requires p < |pkt|
    ensures r.Some? ==> r.value < |pkt|
    decreases k
  {
    if k == 0 then Some(p)
    else
      match Target(pkt, p)
      case None => None
      case Some(q) => Hop(pkt, q, k - 1)
  }

  /** The pointer at p leads back to itself, directly or over other pointers. */
  ghost predicate PointsToItself(pkt: Bytes, p: nat)
    requires p < |pkt|
  {
    exists k: nat :: k > 0 && Hop(pkt, p, k) == Some(p)
  }

  lemma FollowsTarget(pkt: Bytes, room: nat, c: Cursor)
    requires c.pos < |pkt| && c.used <= room
    ensures Act(pkt, room, c).Follow? <==> Target(pkt, c.pos).Some?
    ensures Act(pkt, room, c).Follow? ==> Act(pkt, room, c).off == Target(pkt, c.pos).value
  {
  }

  lemma {:induction false} HopAdds(pkt: Bytes, p: nat, i: nat, j: nat)
    requires p < |pkt| && Hop(pkt, p, i).Some?
    ensures Hop(pkt, p, i + j) == Hop(pkt, Hop(pkt, p, i).value, j)
    decreases i
  {
    hide Target;
    if i > 0 {
      HopAdds(pkt, Target(pkt, p).value, i - 1, j);
    }
  }

  /** The loop follows the pointers it stands at, whatever it has written. */
  lemma {:induction false} HopIsAfter(pkt: Bytes, room: nat, c: Cursor, k: nat)
    requires c.pos < |pkt| && c.used <= room && Hop(pkt, c.pos, k).Some?
    ensures After(pkt, room, c, k) == Some(Cursor(Hop(pkt, c.pos, k).value, c.used))
    decreases k
  {
    hide Act, Target;
    if k > 0 {
      FollowsTarget(pkt, room, c);
      HopIsAfter(pkt, room, Cursor(Target(pkt, c.pos).value, c.used), k - 1);
    }
  }

  /** Iterations that write nothing are pointers in a row. */
  lemma {:induction false} AfterIsHop(pkt: Bytes, room: nat, c: Cursor, k: nat)
    requires c.pos < |pkt| && c.used <= room && After(pkt, room, c, k).Some?
    requires After(pkt, room, c, k).value.used == c.used
    ensures Hop(pkt, c.pos, k) == Some(After(pkt, room, c, k).value.pos)
    decreases k
  {
    hide Act, Target;
    if k > 0 {
      FollowsTarget(pkt, room, c);
      match Act(pkt, room, c)
      case Follow(off) => AfterIsHop(pkt, room, Cursor(off, c.used), k - 1);
      case Label(n) => UsedGrows(pkt, room, Cursor(c.pos + 1 + n, c.used + n + 1), k - 1);
      case _ =>
    }
  }

  /** The run from c never stands at a pointer that leads back to itself. */
  ghost predicate AvoidsLoops(pkt: Bytes, room: nat, c: Cursor)
    requires c.pos < |pkt| && c.used <= room
  {
    forall n: nat :: After(pkt, room, c, n).Some? ==> !PointsToItself(pkt, After(pkt, room, c, n).value.pos)
  }

  /** A name ends exactly when no position its run reaches holds a pointer that leads back to itself. */
  lemma EndsWithoutLoop(pkt: Bytes, room: nat, pos: nat, out: Bytes)
    requires pos < |pkt| && |out| <= room
    ensures Ends(pkt, room, pos, out) <==> AvoidsLoops(pkt, room, Cursor(pos, |out|))
  {
    hide Run, Ends, After, Act, Hop;
    var c := Cursor(pos, |out|);
    EndsExactly(pkt, room, pos, out);
    forall n: nat | After(pkt, room, c, n).Some? && PointsToItself(pkt, After(pkt, room, c, n).value.pos)
      ensures !Ends(pkt, room, pos, out)
    {
      var d := After(pkt, room, c, n).value;
      var k: nat :| k > 0 && Hop(pkt, d.pos, k) == Some(d.pos);
      HopIsAfter(pkt, room, d, k);
      AfterAdds(pkt, room, c, n, k);
      assert Meets(pkt, room, c, n, n + k);
    }
    if !Ends(pkt, room, pos, out) {
      var i: nat, j: nat :| Meets(pkt, room, c, i, j);
      var d := After(pkt, room, c, i).value;
      AfterAdds(pkt, room, c, i, j - i);
      AfterIsHop(pkt, room, d, j - i);
      assert PointsToItself(pkt, d.pos);
    }
  }

  /**
   The packets that are safe to read, from every position and with any room, are exactly those
   without such a pointer.
   */
  lemma AllNamesEnd(pkt: Bytes)
    ensures (forall room: nat, pos: nat :: pos < |pkt| ==> Ends(pkt, room, pos, []))
            <==> forall p: nat :: p < |pkt| ==> !PointsToItself(pkt, p)
  {
    hide Run, Ends, Act, Hop, PointsToItself;
    if forall p: nat :: p < |pkt| ==> !PointsToItself(pkt, p) {
      forall room: nat, pos: nat | pos < |pkt|
        ensures Ends(pkt, room, pos, [])
      {
        EndsWithoutLoop(pkt, room, pos, []);
      }
    } else {
      var p: nat :| p < |pkt| && PointsToItself(pkt, p);
      EndsWithoutLoop(pkt, 0, p, []);
      assert After(pkt, 0, Cursor(p, 0), 0) == Some(Cursor(p, 0));
      assert !Ends(pkt, 0, p, []);
    }
  }

  /** To find such a pointer, as many hops as the packet has bytes are enough. */
  lemma LoopsAreShort(pkt: Bytes, p: nat) returns (k: nat)
    requires p < |pkt| && PointsToItself(pkt, p)
    ensures 0 < k <= |pkt| && Hop(pkt, p, k) == Some(p)
  {
    hide Hop, Target;
    var period: nat :| period > 0 && Hop(pkt, p, period) == Some(p);
    var n := |pkt|;
    var far := (n + 1) * period;
    LoopRepeats(pkt, p, period, n + 1);
    AtLeast(n + 1, period);
    forall m: nat | m <= far
      ensures Hop(pkt, p, m).Some?
    {
      HopEarlier(pkt, p, m, far);
    }
    var s: seq<nat> := seq(n + 1, m requires 0 <= m <= n => Hop(pkt, p, m).value);
    var i, j := Pigeonhole(s, n);
    k := j - i;
    HopAdds(pkt, p, i, far - i);
    HopAdds(pkt, p, j, far - i);
    HopAdds(pkt, p, far, k);
    assert far + k == j + (far - i) && far == i + (far - i);
  }

  lemma {:induction false} LoopRepeats(pkt: Bytes, p: nat, period: nat, times: nat)
    requires p < |pkt| && Hop(pkt, p, period) == Some(p)
    ensures Hop(pkt, p, times * period) == Some(p)
    decreases times
  {
    if times > 0 {
      LoopRepeats(pkt, p, period, times - 1);
      HopAdds(pkt, p, (times - 1) * period, period);
      assert times * period == (times - 1) * period + period;
    } else {
      assert times * period == 0;
    }
  }

  lemma {:induction false} HopEarlier(pkt: Bytes, p: nat, i: nat, n: nat)
    requires p < |pkt| && i <= n && Hop(pkt, p, n).Some?
    ensures Hop(pkt, p, i).Some?
    decreases i
  {
    hide Target;
    if i > 0 {
      HopEarlier(pkt, Target(pkt, p).value, i - 1, n - 1);
    }
  }

  /** Every pointer that the run from c stands at leads strictly backwards. */
  ghost predicate LeadsBack(pkt: Bytes, room: nat, c: Cursor)
    requires c.pos < |pkt| && c.used <= room
  {
    forall n: nat :: After(pkt, room, c, n).Some? ==>
      var d := After(pkt, room, c, n).value;
      Target(pkt, d.pos).Some? ==> Target(pkt, d.pos).value < d.pos
  }

  /** When it does, as section 4.1.4 of RFC 1035 means it, the room left and then the position
      only go down, so the name ends. */
  lemma BackwardPointersEnd(pkt: Bytes, room: nat, pos: nat, out: Bytes)
    requires pos < |pkt| && |out| <= room && LeadsBack(pkt, room, Cursor(pos, |out|))
    ensures Ends(pkt, room, pos, out)
  {
    hide Run, Ends, After, Act, Hop, Target;
    var c := Cursor(pos, |out|);
    forall n: nat | After(pkt, room, c, n).Some?
      ensures !PointsToItself(pkt, After(pkt, room, c, n).value.pos)
    {
      var d := After(pkt, room, c, n).value;
      if PointsToItself(pkt, d.pos) {
        var k: nat :| k > 0 && Hop(pkt, d.pos, k) == Some(d.pos);
        LeadsBackOn(pkt, room, c, n);
        HopsGoBack(pkt, room, d, k);
      }
    }
    EndsWithoutLoop(pkt, room, pos, out);
  }

  lemma LeadsBackOn(pkt: Bytes, room: nat, c: Cursor, n: nat)
    requires c.pos < |pkt| && c.used <= room && LeadsBack(pkt, room, c) && After(pkt, room, c, n).Some?
    ensures LeadsBack(pkt, room, After(pkt, room, c, n).value)
  {
    hide After, Target;
    forall m: nat
      ensures After(pkt, room, c, n + m) == After(pkt, room, After(pkt, room, c, n).value, m)
    {
      AfterAdds(pkt, room, c, n, m);
    }
  }

  lemma {:induction false} HopsGoBack(pkt: Bytes, room: nat, c: Cursor, k: nat)
    requires c.pos < |pkt| && c.used <= room && LeadsBack(pkt, room, c)
    requires k > 0 && Hop(pkt, c.pos, k).Some?
    ensures Hop(pkt, c.pos, k).value < c.pos
    decreases k
  {
    hide Act, Target;
    assert After(pkt, room, c, 0) == Some(c);
    var q := Target(pkt, c.pos).value;
    assert Hop(pkt, c.pos, k) == Hop(pkt, q, k - 1);
    FollowsTarget(pkt, room, c);
    assert After(pkt, room, Cursor(q, c.used), 0) == Some(Cursor(q, c.used));
    assert After(pkt, room, c, 1) == Some(Cursor(q, c.used));
    if k > 1 {
      LeadsBackOn(pkt, room, c, 1);
      HopsGoBack(pkt, room, Cursor(q, c.used), k - 1);
    }
  }

  /** The smallest loop: a pointer to itself, as in the packet 0xC0 0x00, is met for ever. */
  lemma SelfPointerNeverEnds(pkt: Bytes, room: nat, pos: nat, out: Bytes)
    requires pos < |pkt| && |out| <= room && Target(pkt, pos) == Some(pos)
    ensures !Ends(pkt, room, pos, out)
  {
    assert After(pkt, room, Cursor(pos, |out|), 0) == Some(Cursor(pos, |out|));
    assert Hop(pkt, pos, 1) == Hop(pkt, pos, 0);
    assert PointsToItself(pkt, pos);
    EndsWithoutLoop(pkt, room, pos, out);
  }

  /** Two bytes are enough, whatever the room. */
  lemma TwoBytesNeverEnd(room: nat)
    ensures !Ends([0xC0, 0], room, 0, [])
  {
    SelfPointerNeverEnds([0xC0, 0], room, 0, []);
  }

  // The round trip.

  /** Every label of the name is at most 63 bytes long. */
  predicate Short(name: Bytes) {
    var s := FirstDot(name);
    s <= 63 && (s < |name| ==> Short(name[s + 1..]))
  }

  /** Every label of the name is 1 to 63 bytes long, as section 3.1 of RFC 1035 asks. */
  predicate WellLabelled(name: Bytes) {
    var s := FirstDot(name);
    1 <= s <= 63 && (s < |name| ==> WellLabelled(name[s + 1..]))
  }

  /** Enough iterations to read an encoded name. */
  function Iterations(name: Bytes): (n: nat)
    ensures n >= 2
  {
    var s := FirstDot(name);
    if s < |name| then 1 + Iterations(name[s + 1..]) else 2
  }

  lemma WellLabelledIsShort(name: Bytes)
    requires WellLabelled(name)
    ensures Short(name)
  {
    hide FirstDot;
  }

  /** The packet around the first label of an encoded name. */
  lemma LabelBytes(pre: Bytes, s: byte, piece: Bytes, tail: Bytes)
    requires |piece| == s && tail != []
    ensures var pkt := pre + ([s] + piece + tail);
            && |pre| + 1 + s < |pkt| && pkt[|pre|] == s && pkt[|pre| + 1..|pre| + 1 + s] == piece
            && pkt == (pre + [s] + piece) + tail && |pre + [s] + piece| == |pre| + 1 + s
            && pkt[|pre| + 1 + s] == tail[0]
  {
    var pkt := pre + ([s] + piece + tail);
    assert pkt == (pre + [s] + piece) + tail;
  }

  lemma SplitName(name: Bytes, out: Bytes, s: nat)
    requires s < |name| && name[s] == DOT
    ensures (out + name[..s] + [DOT]) + name[s + 1..] == out + name
  {
    assert name == name[..s] + [DOT] + name[s + 1..];
  }

  lemma EncodedNonempty(name: Bytes, post: Bytes)
    requires Short(name)
    ensures Encoded(name) + post != []
  {
  }

  /** Reading the last label: either the destination is full, or the final dot is taken back. */
  lemma ReadLast(pre: Bytes, name: Bytes, post: Bytes, room: nat, out: Bytes)
    requires 1 <= |name| <= 63 && |out| + |name| <= room
    ensures var pkt := pre + ([|name|] + name + ([NUL] + post));
            Run(pkt, room, |pre|, out, 2) == Returned(out + name)
  {
    var pkt := pre + ([|name|] + name + ([NUL] + post));
    hide Act;
    LabelBytes(pre, |name|, name, [NUL] + post);
    ActIs(pkt, room, Cursor(|pre|, |out|));
    var a := Act(pkt, room, Cursor(|pre|, |out|));
    if |out| + |name| == room {
      assert a == Fill(|name|);
    } else {
      assert a == Label(|name|);
      var next := out + name + [DOT];
      ActIs(pkt, room, Cursor(|pre| + 1 + |name|, |next|));
      assert Act(pkt, room, Cursor(|pre| + 1 + |name|, |next|)) == Finish;
      assert next[..|next| - 1] == out + name;
      assert Run(pkt, room, |pre| + 1 + |name|, next, 1) == Returned(out + name);
    }
  }

  /** Reading any other label copies it and a dot. */
  lemma ReadLabel(pre: Bytes, s: byte, piece: Bytes, tail: Bytes, room: nat, out: Bytes, n: nat)
    requires |piece| == s && 1 <= s <= 63 && tail != [] && |out| + s < room && n > 0
    ensures var pkt := pre + ([s] + piece + tail);
            && pkt == (pre + [s] + piece) + tail
            && Run(pkt, room, |pre|, out, n) == Run(pkt, room, |pre + [s] + piece|, out + piece + [DOT], n - 1)
  {
    var pkt := pre + ([s] + piece + tail);
    hide Act, Run;
    LabelBytes(pre, s, piece, tail);
    ActIs(pkt, room, Cursor(|pre|, |out|));
    assert Act(pkt, room, Cursor(|pre|, |out|)) == Label(s);
    RunLabel(pkt, room, |pre|, out, n, s);
  }

  lemma RunLabel(pkt: Bytes, room: nat, pos: nat, out: Bytes, n: nat, k: nat)
    requires pos < |pkt| && |out| <= room && n > 0 && Act(pkt, room, Cursor(pos, |out|)) == Label(k)
    ensures Run(pkt, room, pos, out, n) == Run(pkt, room, pos + 1 + k, out + pkt[pos + 1..pos + 1 + k] + [DOT], n - 1)
  {
    hide Act;
  }

  lemma EncodedUnfold(name: Bytes)
    requires FirstDot(name) <= 127
    ensures var s := FirstDot(name);
            Encoded(name) == LabelOf(name, s) + (if s < |name| then Encoded(name[s + 1..]) else [NUL])
  {
    hide FirstDot;
  }

  /** The first label of an encoded name and what stands behind it. */
  lemma EncodedFirst(name: Bytes, post: Bytes)
    requires FirstDot(name) <= 127
    ensures var s := FirstDot(name);
            Encoded(name) + post ==
            LabelOf(name, s) + ((if s < |name| then Encoded(name[s + 1..]) else [NUL]) + post)
  {
    hide FirstDot, Encoded, LabelOf;
    var s := FirstDot(name);
    var piece := LabelOf(name, s);
    var tail := if s < |name| then Encoded(name[s + 1..]) else [NUL];
    EncodedUnfold(name);
    Regroup(piece, tail, post);
  }

  lemma RestWellLabelled(name: Bytes)
    ensures var s := FirstDot(name);
            WellLabelled(name) <==> 1 <= s <= 63 && (s < |name| ==> WellLabelled(name[s + 1..]))
  {
    hide FirstDot;
  }

  lemma RestShort(name: Bytes)
    ensures var s := FirstDot(name);
            Short(name) <==> s <= 63 && (s < |name| ==> Short(name[s + 1..]))
  {
    hide FirstDot;
  }

  lemma RestIterations(name: Bytes)
    ensures var s := FirstDot(name);
            Iterations(name) == if s < |name| then 1 + Iterations(name[s + 1..]) else 2
  {
    hide FirstDot;
  }

  lemma RestOfName(name: Bytes)
    ensures var s := FirstDot(name);
            s < |name| ==>
              && (WellLabelled(name) <==> 1 <= s <= 63 && WellLabelled(name[s + 1..]))
              && (Short(name) <==> s <= 63 && Short(name[s + 1..]))
              && Iterations(name) == 1 + Iterations(name[s + 1..])
    ensures FirstDot(name) == |name| ==>
              && (WellLabelled(name) <==> 1 <= |name| <= 63)
              && (Short(name) <==> |name| <= 63)
              && Iterations(name) == 2
  {
    hide FirstDot, WellLabelled, Short, Iterations;
    RestWellLabelled(name);
    RestShort(name);
    RestIterations(name);
  }

  lemma {:induction false} ReadBack(pre: Bytes, name: Bytes, post: Bytes, room: nat, out: Bytes)
    requires WellLabelled(name) && |out| + |name| <= room
    ensures var pkt := pre + (Encoded(name) + post);
            |pre| < |pkt| && Run(pkt, room, |pre|, out, Iterations(name)) == Returned(out + name)
    decreases |name|
  {
    hide Run, Act, FirstDot, WellLabelled, Short, Encoded, Iterations;
    var s := FirstDot(name);
    RestOfName(name);
    EncodedFirst(name, post);
    if s == |name| {
      assert name[..s] == name;
      ReadLast(pre, name, post, room, out);
    } else {
      var rest := name[s + 1..];
      WellLabelledIsShort(rest);
      EncodedNonempty(rest, post);
      ReadLabel(pre, s, name[..s], Encoded(rest) + post, room, out, Iterations(name));
      ReadBack(pre + [s] + name[..s], rest, post, room, out + name[..s] + [DOT]);
      SplitName(name, out, s);
    }
  }

  /** An empty label ends the name early, so something of it is lost. */
  lemma {:induction false} EmptyLabelCuts(pre: Bytes, name: Bytes, post: Bytes, room: nat, out: Bytes)
    requires Short(name) && !WellLabelled(name) && |out| + |name| <= room && out + name != []
    ensures var pkt := pre + (Encoded(name) + post);
            && |pre| < |pkt|
            && Run(pkt, room, |pre|, out, Iterations(name)).Returned?
            && |Run(pkt, room, |pre|, out, Iterations(name)).text| < |out| + |name|
    decreases |name|
  {
    hide Run, Act, FirstDot, WellLabelled, Short, Encoded, Iterations;
    var s := FirstDot(name);
    var pkt := pre + (Encoded(name) + post);
    RestOfName(name);
    EncodedFirst(name, post);
    if s == 0 {
      assert pkt[|pre|] == 0;
      StopsAtZero(pkt, room, |pre|, out, Iterations(name));
    } else {
      var rest := name[s + 1..];
      EncodedNonempty(rest, post);
      ReadLabel(pre, s, name[..s], Encoded(rest) + post, room, out, Iterations(name));
      EmptyLabelCuts(pre + [s] + name[..s], rest, post, room, out + name[..s] + [DOT]);
    }
  }

  lemma StopsAtZero(pkt: Bytes, room: nat, pos: nat, out: Bytes, n: nat)
    requires pos < |pkt| && |out| <= room && n > 0 && pkt[pos] == 0
    ensures Run(pkt, room, pos, out, n) == Returned(if out == [] then [] else out[..|out| - 1])
  {
  }

  /** Reading back a name whose labels fit into six bits. */
  lemma ShortRoundTrip(pre: Bytes, name: Bytes, post: Bytes, room: nat)
    requires Short(name) && |name| <= room
    ensures var pkt := pre + (Encoded(name) + post);
            && |pre| < |pkt| && Ends(pkt, room, |pre|, [])
            && (Result(pkt, room, |pre|, []) == name <==> name == [] || WellLabelled(name))
  {
    hide Run, Act;
    var pkt := pre + (Encoded(name) + post);
    var n := Iterations(name);
    EncodedNonempty(name, post);
    if name == [] {
      assert Encoded(name) == [0, NUL];
      assert pkt[|pre|] == 0;
      StopsAtZero(pkt, room, |pre|, [], n);
    } else if WellLabelled(name) {
      ReadBack(pre, name, post, room, []);
      assert [] + name == name;
    } else {
      EmptyLabelCuts(pre, name, post, room, []);
    }
    ResultIs(pkt, room, |pre|, [], n);
  }

  /** Any 64 bytes in a row hold a dot. */
  predicate Dotted(text: Bytes) {
    forall i: nat {:trigger DOT in text[i..i + 64]} :: i + 64 <= |text| ==> DOT in text[i..i + 64]
  }

  /** What the loop has written: labels of at most 63 bytes, each with its dot. */
  predicate Written(out: Bytes) {
    Dotted(out) && (out == [] || out[|out| - 1] == DOT)
  }

  lemma WrittenMore(out: Bytes, piece: Bytes)
    requires Written(out) && |piece| < 64
    ensures Dotted(out + piece) && Written(out + piece + [DOT])
  {
    hide Dotted;
    DottedMore(out, piece);
    DottedMore(out, piece + [DOT]);
    assert out + piece + [DOT] == out + (piece + [DOT]);
  }

  lemma DottedMore(out: Bytes, piece: Bytes)
    requires Written(out) && (|piece| < 64 || (|piece| == 64 && DOT in piece))
    ensures Dotted(out + piece)
  {
    var text := out + piece;
    forall i: nat {:trigger DOT in text[i..i + 64]} | i + 64 <= |text|
      ensures DOT in text[i..i + 64]
    {
      var window := text[i..i + 64];
      if i + 64 <= |out| {
        assert window == out[i..i + 64];
      } else if i < |out| {
        assert window[|out| - 1 - i] == out[|out| - 1];
      } else {
        assert window == piece;
      }
    }
  }

  lemma DottedPrefix(text: Bytes, n: nat)
    requires n <= |text| && Dotted(text)
    ensures Dotted(text[..n])
  {
    forall i: nat {:trigger DOT in text[..n][i..i + 64]} | i + 64 <= n
      ensures DOT in text[..n][i..i + 64]
    {
      assert text[..n][i..i + 64] == text[i..i + 64];
    }
  }

  /** A reader that takes labels of 64 bytes and more for pointers never writes one. */
  lemma {:induction false} RunIsDotted(pkt: Bytes, room: nat, pos: nat, out: Bytes, n: nat)
    requires pos < |pkt| && |out| <= room && Written(out) && Run(pkt, room, pos, out, n).Returned?
    ensures Dotted(Run(pkt, room, pos, out, n).text)
    decreases n
  {
    hide Act, Dotted;
    LabelFits(pkt, room, Cursor(pos, |out|));
    match Act(pkt, room, Cursor(pos, |out|))
    case Finish =>
      if out != [] {
        DottedPrefix(out, |out| - 1);
      }
    case Fail => NothingDotted();
    case Follow(off) => RunIsDotted(pkt, room, off, out, n - 1);
    case Label(k) =>
      WrittenMore(out, pkt[pos + 1..pos + 1 + k]);
      RunIsDotted(pkt, room, pos + 1 + k, out + pkt[pos + 1..pos + 1 + k] + [DOT], n - 1);
    case Fill(k) => WrittenMore(out, pkt[pos + 1..pos + 1 + k]);
  }

  lemma LabelFits(pkt: Bytes, room: nat, c: Cursor)
    requires c.pos < |pkt| && c.used <= room
    ensures var a := Act(pkt, room, c); (a.Label? || a.Fill?) ==> a.n < 64
  {
  }

  lemma NothingDotted()
    ensures Dotted([]) && Written([])
  {
  }

  lemma FirstDotIsNear(text: Bytes)
    requires Dotted(text)
    ensures FirstDot(text) <= 63
  {
    var first: nat := 0;
    if |text| >= 64 {
      assert DOT in text[first..first + 64];
      var k: nat :| k < 64 && text[first..first + 64][k] == DOT;
      assert text[k] == DOT;
    }
  }

  lemma {:induction false} DottedIsShort(text: Bytes)
    requires Dotted(text)
    ensures Short(text)
    decreases |text|
  {
    hide FirstDot;
    var s := FirstDot(text);
    FirstDotIsNear(text);
    if s < |text| {
      forall i: nat {:trigger DOT in text[s + 1..][i..i + 64]} | i + 64 <= |text[s + 1..]|
        ensures DOT in text[s + 1..][i..i + 64]
      {
        var j: nat := s + 1 + i;
        assert DOT in text[j..j + 64];
        assert text[s + 1..][i..i + 64] == text[j..j + 64];
      }
      DottedIsShort(text[s + 1..]);
    }
  }

  /** Whatever the packet, a name with a label of 64 bytes or more is never read. */
  lemma ResultIsShort(pkt: Bytes, room: nat, pos: nat)
    requires pos < |pkt| && Ends(pkt, room, pos, [])
    ensures Short(Result(pkt, room, pos, []))
  {
    hide Run, Dotted, Written;
    var n, final := Measure(pkt, room, pos);
    NothingDotted();
    RunIsDotted(pkt, room, pos, [], n);
    DottedIsShort(final);
  }

  /**
   Reading back what was written, anywhere in a packet: of all names the writer accepts, exactly
   those come back that fit the room and have labels of 1 to 63 bytes, or none at all. For the
   others the loop runs for ever or returns something else.
   */
  lemma RoundTrip(pre: Bytes, name: Bytes, post: Bytes, room: nat)
    requires Encodable(name)
    ensures var pkt := pre + (Encoded(name) + post);
            && |pre| < |pkt|
            && (Ends(pkt, room, |pre|, []) && Result(pkt, room, |pre|, []) == name
                <==> (name == [] || WellLabelled(name)) && |name| <= room)
  {
    hide Run, Act, Ends, Result, Short, WellLabelled, Encodable;
    var pkt := pre + (Encoded(name) + post);
    EncodedSome(name, post);
    if Short(name) && |name| <= room {
      ShortRoundTrip(pre, name, post, room);
    } else {
      if name == [] || WellLabelled(name) {
        NothingIsShort();
        if name != [] {
          WellLabelledIsShort(name);
        }
      }
      if Ends(pkt, room, |pre|, []) {
        ResultIsShort(pkt, room, |pre|);
      }
    }
  }

  lemma EncodedSome(name: Bytes, post: Bytes)
    requires Encodable(name)
    ensures Encoded(name) + post != []
  {
  }

  lemma NothingIsShort()
    ensures Short([])
  {
  }

  /** Without room for the name nothing can give it back. */
  lemma NoRoomNoName(pkt: Bytes, name: Bytes, room: nat, pos: nat)
    requires pos < |pkt| && room < |name| && Ends(pkt, room, pos, [])
    ensures Result(pkt, room, pos, []) != name
  {
  }

  /** A label of 64 to 127 bytes is written like any other and read as a pointer. */
  lemma LongLabelIsPointer(pre: Bytes, name: Bytes, post: Bytes, room: nat)
    requires 64 <= FirstDot(name) <= 127
    ensures var pkt, off := pre + (Encoded(name) + post), FirstDot(name) % 64 * 256 + name[0] as int;
            && |pre| < |pkt|
            && Act(pkt, room, Cursor(|pre|, 0)) == if off >= |pkt| then Fail else Follow(off)
  {
    hide FirstDot, Encoded, Act;
    var pkt, s := pre + (Encoded(name) + post), FirstDot(name);
    EncodedFirst(name, post);
    assert Encoded(name) + post == [s] + name[..s] + ((if s < |name| then Encoded(name[s + 1..]) else [NUL]) + post);
    assert pkt[|pre|] == s && pkt[|pre| + 1] == name[0];
    ActIs(pkt, room, Cursor(|pre|, 0));
  }

  /** The smallest such name alone in its packet: sixty-four letters a come back as nothing. */
  lemma LongLabelIsLost(room: nat)
    ensures var name := seq(64, _ => 97 as byte);
            Encodable(name) && Run(Encoded(name), room, 0, [], 1) == Returned([])
  {
    var name := seq(64, _ => 97 as byte);
    NoDot(name);
    assert Encoded(name) == [64] + name + [NUL];
  }

  lemma {:induction false} NoDot(name: Bytes)
    requires DOT !in name
    ensures FirstDot(name) == |name|
  {
    if name != [] {
      NoDot(name[1..]);
    }
  }

  // The two functions of mongoose.

  /** strchr(name, '.') from an offset, with the terminating zero as the last resort. */
  method FindDot(name: Bytes, from: nat) returns (s: nat)
    requires from <= |name|
    ensures s == FirstDot(name[from..])
  {
    s := 0;
    while from + s < |name| && name[from + s] != DOT
      invariant from + s <= |name|
      invariant FirstDot(name[from..]) == s + FirstDot(name[from + s..])
    {
      assert name[from + s..][1..] == name[from + s + 1..];
      s := s + 1;
    }
  }

  /** mg_dns_encode_name. What it has appended stays when it gives up. */
  method EncodeName(io: Mbuf, name: Bytes) returns (r: int)
    requires io.Valid()
    modifies io, io.buf
    ensures io.Valid() && (io.buf == old(io.buf) || fresh(io.buf))
    ensures io.Contents == old(io.Contents) + Encoded(name)
    ensures r == if Encodable(name) then |Encoded(name)| else -1
  {
    hide Mbuf.Valid, Encoded, Encodable, FirstDot;
    var pos, at: nat := io.len, 0;
    ghost var was, sent: Bytes := io.Contents, [];
    var more := true;
    while more
      invariant io.Valid() && (io.buf == old(io.buf) || fresh(io.buf)) && at <= |name|
      invariant io.Contents == was + sent
      invariant Encoded(name) == sent + (if more then Encoded(name[at..]) else [NUL])
      invariant if more then Encodable(name) <==> Encodable(name[at..]) else Encodable(name)
      decreases if more then |name| - at + 1 else 0
    {
      var s := FindDot(name, at);
      if s > 127 {
        Refused(name[at..]);
        assert sent + [] == sent;
        return -1;
      }
      AppendLabel(io, name, at, s, was + sent);
      EncodedLabel(name, at, s, sent);
      assert was + sent + ([s as byte] + name[at..at + s]) == was + (sent + ([s as byte] + name[at..at + s]));
      sent := sent + ([s as byte] + name[at..at + s]);
      if at + s < |name| {
        at := at + s + 1;
      } else {
        more := false;
      }
    }
    io.Append([NUL]);
    assert was + sent + [NUL] == was + (sent + [NUL]);
    LengthInUse(io);
    r := io.len - pos;
  }

  /** The length byte and the label. */
  method AppendLabel(io: Mbuf, name: Bytes, at: nat, s: nat, ghost was: Bytes)
    requires io.Valid() && io.Contents == was && at + s <= |name| && s <= 127
    modifies io, io.buf
    ensures io.Valid() && (io.buf == old(io.buf) || fresh(io.buf))
    ensures io.Contents == was + ([s as byte] + name[at..at + s])
  {
    hide Mbuf.Valid;
    io.Append([s]);
    io.Append(name[at..at + s]);
    assert was + [s as byte] + name[at..at + s] == was + ([s as byte] + name[at..at + s]);
  }

  lemma LengthInUse(io: Mbuf)
    requires io.Valid()
    ensures io.len == |io.Contents|
  {
  }

  lemma Refused(name: Bytes)
    requires FirstDot(name) > 127
    ensures Encoded(name) == [] && !Encodable(name)
  {
  }

  lemma RestEncodable(name: Bytes)
    requires FirstDot(name) <= 127
    ensures Encodable(name) <==> (FirstDot(name) < |name| ==> Encodable(name[FirstDot(name) + 1..]))
  {
    hide FirstDot;
  }

  /** One label of the name, and what is still to be written behind it. */
  lemma EncodedLabel(name: Bytes, at: nat, s: nat, sent: Bytes)
    requires at <= |name| && s == FirstDot(name[at..]) <= 127
    ensures var piece: Bytes := [s] + name[at..at + s];
            && sent + Encoded(name[at..]) ==
               (sent + piece) + (if at + s < |name| then Encoded(name[at + s + 1..]) else [NUL])
            && (at + s < |name| ==> (Encodable(name[at..]) <==> Encodable(name[at + s + 1..])))
            && (at + s == |name| ==> Encodable(name[at..]))
  {
    hide FirstDot, Encoded, Encodable;
    var piece: Bytes := [s] + name[at..at + s];
    var tail := if at + s < |name| then Encoded(name[at + s + 1..]) else [NUL];
    assert name[at..][..s] == name[at..at + s];
    RestEncodable(name[at..]);
    EncodedFirst(name[at..], []);
    if at + s < |name| {
      assert name[at..][s + 1..] == name[at + s + 1..];
    }
    assert tail + [] == tail && Encoded(name[at..]) + [] == Encoded(name[at..]);
    Regroup(sent, piece, tail);
  }

  /** mg_dns_uncompress_name, for names on which its loop ends: room is dst_len. */
  method UncompressName(pkt: Bytes, start: nat, dst: array<byte>, room: nat) returns (r: nat)
    requires room <= dst.Length
    requires start < |pkt| ==> Ends(pkt, room, start, [])
    modifies dst
    ensures r <= room && dst[..][room..] == old(dst[..])[room..]
    ensures start >= |pkt| ==> r == 0
    ensures start < |pkt| ==> dst[..][..r] == Result(pkt, room, start, [])
  {
    hide Run, Act, Ends, Result;
    if start >= |pkt| {
      return 0;
    }
    ghost var n, final := Measure(pkt, room, start);
    var pos, used: nat := start, 0;
    ghost var out: Bytes := [];
    var chunk: int := pkt[pos];
    pos := pos + 1;
    while chunk != 0
      invariant 1 <= pos <= |pkt| && |out| == used <= room && chunk == pkt[pos - 1]
      invariant dst[..][..used] == out && dst[..][room..] == old(dst[..])[room..]
      invariant Run(pkt, room, pos - 1, out, n) == Returned(final)
      decreases n
    {
      NextIteration(pkt, room, pos - 1, out, n);
      n := n - 1;
      if pos >= |pkt| {
        return 0;
      }
      if chunk >= 64 {
        var off := chunk % 64 * 256 + pkt[pos] as int;
        if off >= |pkt| {
          return 0;
        }
        pos := off;
      } else {
        var leeway := room - used;
        var len: nat := if chunk > leeway then leeway else chunk;
        if pos + len >= |pkt| {
          return 0;
        }
        PutBytes(dst, used, pkt[pos..pos + len], room);
        out := out + pkt[pos..pos + len];
        pos := pos + len;
        used := used + len;
        leeway := leeway - len;
        if leeway == 0 {
          return used;
        }
        PutBytes(dst, used, [DOT], room);
        out := out + [DOT];
        used := used + 1;
      }
      chunk := pkt[pos];
      pos := pos + 1;
    }
    LastIteration(pkt, room, pos - 1, out, n);
    if used != 0 {
      used := used - 1;
      TakeBackDot(dst, used, room);
      assert dst[..][..used] == out[..used];
    }
    return used;
  }

  /** The zero that replaces the last dot. */
  method TakeBackDot(dst: array<byte>, used: nat, room: nat)
    requires used < room <= dst.Length
    modifies dst
    ensures dst[..][..used] == old(dst[..])[..used] && dst[used] == NUL
    ensures dst[..][room..] == old(dst[..])[room..]
  {
    dst[used] := NUL;
  }

  /** Bytes written behind those already in the destination. */
  method PutBytes(dst: array<byte>, used: nat, data: Bytes, room: nat)
    requires used + |data| <= room <= dst.Length
    modifies dst
    ensures dst[..][..used + |data|] == old(dst[..])[..used] + data
    ensures dst[..][room..] == old(dst[..])[room..]
  {
    hide Overwrite;
    ghost var was := dst[..];
    MemCopy(dst, used, data);
    OverwriteEnds(was, used, data, room);
  }

  /** A number of iterations in which the run ends, and what it returns. */
  lemma Measure(pkt: Bytes, room: nat, pos: nat) returns (n: nat, final: Bytes)
    requires pos < |pkt| && Ends(pkt, room, pos, [])
    ensures Run(pkt, room, pos, [], n) == Returned(final) && final == Result(pkt, room, pos, [])
  {
    n :| Run(pkt, room, pos, [], n).Returned?;
    final := Run(pkt, room, pos, [], n).text;
    ResultIs(pkt, room, pos, [], n);
  }

  /** The tests of one iteration in the order in which the loop makes them. */
  lemma ActIs(pkt: Bytes, room: nat, c: Cursor)
    requires c.pos < |pkt| && c.used <= room
    ensures var b: int, leeway := pkt[c.pos], room - c.used;
            var n := if b > leeway then leeway else b;
            && (b == 0 ==> Act(pkt, room, c) == Finish)
            && (b != 0 && c.pos + 1 >= |pkt| ==> Act(pkt, room, c) == Fail)
            && (b >= 64 && c.pos + 1 < |pkt| ==>
                  var off: int := b % 64 * 256 + pkt[c.pos + 1] as int;
                  Act(pkt, room, c) == if off >= |pkt| then Fail else Follow(off))
            && (0 < b < 64 && c.pos + 1 < |pkt| ==>
                  Act(pkt, room, c) ==
                  if c.pos + 1 + n >= |pkt| then Fail else if n == leeway then Fill(n) else Label(n))
  {
  }

  /** The same tests, and what is left of the run behind each of them. */
  lemma NextIteration(pkt: Bytes, room: nat, pos: nat, out: Bytes, n: nat)
    requires pos < |pkt| && |out| <= room && Run(pkt, room, pos, out, n).Returned? && pkt[pos] != 0
    ensures n > 0
    ensures pos + 1 >= |pkt| ==> Run(pkt, room, pos, out, n) == Returned([])
    ensures pkt[pos] >= 64 && pos + 1 < |pkt| ==>
              var off: int := pkt[pos] % 64 * 256 + pkt[pos + 1] as int;
              Run(pkt, room, pos, out, n) == if off >= |pkt| then Returned([]) else Run(pkt, room, off, out, n - 1)
    ensures pkt[pos] < 64 && pos + 1 < |pkt| ==>
              var leeway := room - |out|;
              var len := if pkt[pos] > leeway then leeway else pkt[pos];
              Run(pkt, room, pos, out, n) ==
              if pos + 1 + len >= |pkt| then Returned([])
              else if len == leeway then Returned(out + pkt[pos + 1..pos + 1 + len])
              else Run(pkt, room, pos + 1 + len, out + pkt[pos + 1..pos + 1 + len] + [DOT], n - 1)
  {
    hide Act;
    ActIs(pkt, room, Cursor(pos, |out|));
  }

  lemma LastIteration(pkt: Bytes, room: nat, pos: nat, out: Bytes, n: nat)
    requires pos < |pkt| && |out| <= room && Run(pkt, room, pos, out, n).Returned? && pkt[pos] == 0
    ensures Run(pkt, room, pos, out, n) == Returned(if out == [] then [] else out[..|out| - 1])
  {
  }

  // Examples.

  /** A name of two parts is written as the first label and the rest. */
  lemma FirstLabelWritten(piece: Bytes, rest: Bytes)
    requires DOT !in piece && |piece| <= 127
    ensures Encoded(piece + [DOT] + rest) == [|piece|] + piece + Encoded(rest)
  {
    hide Encoded, FirstDot;
    var name := piece + [DOT] + rest;
    FirstDotAt(piece, rest);
    EncodedUnfold(name);
    assert name[..|piece|] == piece && name[|piece| + 1..] == rest;
  }

  lemma {:induction false} FirstDotAt(piece: Bytes, rest: Bytes)
    requires DOT !in piece
    ensures FirstDot(piece + [DOT] + rest) == |piece|
  {
    if piece != [] {
      assert (piece + [DOT] + rest)[1..] == piece[1..] + [DOT] + rest;
      FirstDotAt(piece[1..], rest);
    }
  }

  /** A name as section 3.1 of RFC 1035 lays it out. */
  lemma NameExample()
    ensures Encoded(Ascii("isi.edu")) == [3] + Ascii("isi") + ([3] + Ascii("edu") + [0])
  {
    hide Encoded, FirstDot;
    var isi, edu := Ascii("isi"), Ascii("edu");
    assert isi == [105, 115, 105] && edu == [101, 100, 117];
    assert Ascii("isi.edu") == isi + [DOT] + edu;
    FirstLabelWritten(isi, edu);
    LastLabel(edu);
  }

  lemma LastLabel(piece: Bytes)
    requires DOT !in piece && |piece| <= 127
    ensures Encoded(piece) == [|piece|] + piece + [0]
  {
    NoDot(piece);
    assert piece[..|piece|] == piece;
  }

  /** Reading on at a pointer to a name, as section 4.1.4 of RFC 1035 compresses names. */
  lemma PointerReads(pre: Bytes, name: Bytes, post: Bytes, room: nat, at: nat, out: Bytes)
    requires WellLabelled(name) && |out| + |name| <= room && |pre| < 0x4000
    requires var pkt := pre + (Encoded(name) + post);
             at + 1 < |pkt| && pkt[at] as int == 0xC0 + |pre| / 256 && pkt[at + 1] as int == |pre| % 256
    ensures var pkt := pre + (Encoded(name) + post);
            Run(pkt, room, at, out, 1 + Iterations(name)) == Returned(out + name)
  {
    hide Run, Act, Encoded;
    var pkt := pre + (Encoded(name) + post);
    ReadBack(pre, name, post, room, out);
    ActIs(pkt, room, Cursor(at, |out|));
    assert Act(pkt, room, Cursor(at, |out|)) == Follow(|pre|);
    RunFollows(pkt, room, at, out, 1 + Iterations(name), |pre|);
  }

  lemma RunFollows(pkt: Bytes, room: nat, pos: nat, out: Bytes, n: nat, off: nat)
    requires pos < |pkt| && |out| <= room && n > 0 && Act(pkt, room, Cursor(pos, |out|)) == Follow(off)
    ensures Run(pkt, room, pos, out, n) == Run(pkt, room, off, out, n - 1)
  {
    hide Act;
  }

  /** A piece in front of such a pointer is read as one name, like FOO.F.ISI.ARPA there. */
  lemma CompressedName(pre: Bytes, name: Bytes, post: Bytes, room: nat, at: nat, piece: Bytes)
    requires WellLabelled(name) && |pre| < 0x4000
    requires 1 <= |piece| <= 63 && |piece| + 1 + |name| <= room
    requires var pkt, p := pre + (Encoded(name) + post), at + 1 + |piece|;
             && p + 1 < |pkt| && pkt[at] as int == |piece| && pkt[at + 1..p] == piece
             && pkt[p] as int == 0xC0 + |pre| / 256 && pkt[p + 1] as int == |pre| % 256
    ensures var pkt := pre + (Encoded(name) + post);
            Ends(pkt, room, at, []) && Result(pkt, room, at, []) == piece + [DOT] + name
  {
    hide Run, Act, Encoded, Ends, Result;
    var pkt, n := pre + (Encoded(name) + post), 2 + Iterations(name);
    PointerReads(pre, name, post, room, at + 1 + |piece|, piece + [DOT]);
    ActIs(pkt, room, Cursor(at, 0));
    assert |name| > 0;
    assert Act(pkt, room, Cursor(at, 0)) == Label(|piece|);
    RunLabel(pkt, room, at, [], n, |piece|);
    assert [] + piece + [DOT] == piece + [DOT];
    ResultIs(pkt, room, at, [], n);
  }
}
