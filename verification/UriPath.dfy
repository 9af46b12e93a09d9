/** URI path normalisation, done in place with a read and a write cursor. */
module UriPath {
  import opened Bytes

  const ROOT: Bytes := [SLASH]

  // ----- remove_dot_segments, as section 5.2.4 of RFC 3986 words it -----

  /** Length of s up to, but not including, its first slash. */
  function ComponentLen(s: Bytes): (n: nat)
    ensures n <= |s|
    ensures n < |s| ==> s[n] == SLASH
  {
    if s == [] || s[0] == SLASH then 0 else 1 + ComponentLen(s[1..])
  }

  /** "Remove the last segment and its preceding slash (if any)." */
  function RemoveLast(out: Bytes): (r: Bytes)
    ensures r <= out
  {
    if out == [] then []
    else if out[|out| - 1] == SLASH then out[..|out| - 1]
    else RemoveLast(out[..|out| - 1])
  }

  /** Length of the first path segment "including the initial slash (if any)". */
  function SegmentLen(input: Bytes): (n: nat)
    requires input != []
    ensures 0 < n <= |input|
  {
    if input[0] == SLASH then 1 + ComponentLen(input[1..]) else ComponentLen(input)
  }

  predicate At(s: Bytes, i: nat, b: byte) {
    i < |s| && s[i] == b
  }

  /** The RFC's two buffers. */
  datatype Buffers = Buffers(input: Bytes, out: Bytes)

  /** One turn of the RFC's loop. */
  function RfcStep(b: Buffers): (next: Buffers)
    requires b.input != []
    ensures |next.input| < |b.input|
  {
    var input, out := b.input, b.out;
    // 2A
    if At(input, 0, DOT) && At(input, 1, DOT) && At(input, 2, SLASH) then Buffers(input[3..], out)
    else if At(input, 0, DOT) && At(input, 1, SLASH) then Buffers(input[2..], out)
    // 2B
    else if At(input, 0, SLASH) && At(input, 1, DOT) && At(input, 2, SLASH) then Buffers(ROOT + input[3..], out)
    else if At(input, 0, SLASH) && At(input, 1, DOT) && |input| == 2 then Buffers(ROOT, out)
    // 2C
    else if At(input, 0, SLASH) && At(input, 1, DOT) && At(input, 2, DOT) && At(input, 3, SLASH) then
      Buffers(ROOT + input[4..], RemoveLast(out))
    else if At(input, 0, SLASH) && At(input, 1, DOT) && At(input, 2, DOT) && |input| == 3 then
      Buffers(ROOT, RemoveLast(out))
    // 2D
    else if At(input, 0, DOT) && (|input| == 1 || (At(input, 1, DOT) && |input| == 2)) then Buffers([], out)
    // 2E
    else Buffers(input[SegmentLen(input)..], out + input[..SegmentLen(input)])
  }

  function RemoveDots(b: Buffers): Bytes
    decreases |b.input|
  {
    if b.input == [] then b.out else RemoveDots(RfcStep(b))
  }

  function RemoveDotSegments(path: Bytes): Bytes {
    RemoveDots(Buffers(path, []))
  }

  // ----- what the loop computes -----

  predicate IsDots(component: Bytes) {
    component == [DOT] || component == [DOT, DOT]
  }

  /** "Backtrack to previous slash." */
  function ToSlash(d: Bytes): (r: Bytes)
    ensures r <= d
  {
    if d == [] || d[|d| - 1] == SLASH then d else ToSlash(d[..|d| - 1])
  }

  function Backtrack(d: Bytes): (r: Bytes)
    ensures |r| <= |d|
  {
    ToSlash(if |d| > 1 && d[|d| - 1] == SLASH then d[..|d| - 1] else d)
  }

  /** Component plus the slash behind it, if there is one. */
  function StepLen(s: Bytes): (n: nat)
    requires s != []
    ensures 0 < n <= |s|
  {
    if ComponentLen(s) < |s| then ComponentLen(s) + 1 else ComponentLen(s)
  }

  function Emit(d: Bytes, s: Bytes): (r: Bytes)
    requires s != []
    ensures |r| <= |d| + StepLen(s)
  {
    var component := s[..ComponentLen(s)];
    if component == [DOT] then d
    else if component == [DOT, DOT] then Backtrack(d)
    else d + s[..StepLen(s)]
  }

  function Walk(d: Bytes, s: Bytes): (r: Bytes)
    ensures |r| <= |d| + |s|
    decreases |s|
  {
    if s == [] then d else Walk(Emit(d, s), s[StepLen(s)..])
  }

  function Normalized(path: Bytes): Bytes {
    Walk([], path)
  }

  // ----- the loop computes remove_dot_segments -----

  predicate Rooted(out: Bytes) {
    out == [] || out[0] == SLASH
  }

  lemma {:induction false} ToSlashIsRemoveLast(out: Bytes)
    requires out != [] && out[0] == SLASH
    ensures ToSlash(out) == RemoveLast(out) + ROOT
    ensures Rooted(RemoveLast(out))
  {
    if out[|out| - 1] != SLASH {
      ToSlashIsRemoveLast(out[..|out| - 1]);
    }
  }

  lemma BacktrackIsRemoveLast(out: Bytes)
    requires Rooted(out)
    ensures Backtrack(out + ROOT) == RemoveLast(out) + ROOT
    ensures Rooted(RemoveLast(out))
  {
    if out == [] {
      assert out + ROOT == ROOT;
    } else {
      assert (out + ROOT)[..|out|] == out;
      ToSlashIsRemoveLast(out);
    }
  }

  /** Which leading bytes make the first component a dot segment. */
  lemma DotComponents(s: Bytes)
    ensures var c := s[..ComponentLen(s)];
            && (c == [DOT] <==> At(s, 0, DOT) && (|s| == 1 || s[1] == SLASH))
            && (c == [DOT, DOT] <==> At(s, 0, DOT) && At(s, 1, DOT) && (|s| == 2 || s[2] == SLASH))
  {
    if s != [] && s[0] != SLASH {
      var t := s[1..];
      assert ComponentLen(s) == 1 + ComponentLen(t);
      if t != [] && t[0] != SLASH {
        assert ComponentLen(t) == 1 + ComponentLen(t[1..]);
      }
    }
  }

  /** The RFC's step on an input buffer that starts with a slash, by the component behind it. */
  lemma RfcStepByComponent(s: Bytes, out: Bytes)
    ensures var c := s[..ComponentLen(s)];
            var rest := if s == [] then [] else s[StepLen(s)..];
            RfcStep(Buffers(ROOT + s, out)) ==
              if c == [DOT] then Buffers(ROOT + rest, out)
              else if c == [DOT, DOT] then Buffers(ROOT + rest, RemoveLast(out))
              else Buffers(s[|c|..], out + (ROOT + c))
  {
    hide RemoveLast, ComponentLen;
    DotComponents(s);
    var input, n := ROOT + s, ComponentLen(s);
    assert input[0] == SLASH && input[1..] == s;
    assert |s| >= 2 ==> input[3..] == s[2..];
    assert |s| >= 3 ==> input[4..] == s[3..];
    assert n == |s| && s != [] ==> s[StepLen(s)..] == [] && ROOT + [] == ROOT;
    assert input[1 + n..] == s[n..] && input[..1 + n] == ROOT + s[..n];
  }

  lemma RemoveDotsUnfold(b: Buffers)
    ensures RemoveDots(b) == if b.input == [] then b.out else RemoveDots(RfcStep(b))
  {
  }

  /** What is left when the loop reaches the end of the path. */
  lemma RemoveDotsRoot(out: Bytes)
    ensures RemoveDots(Buffers(ROOT, out)) == out + ROOT
  {
    hide RemoveDots, RfcStep;
    RfcStepByComponent([], out);
    assert ROOT + [] == ROOT;
    RemoveDotsUnfold(Buffers(ROOT, out));
    RemoveDotsUnfold(Buffers([], out + ROOT));
  }

  /**
   The refinement: with the write buffer holding the RFC's output buffer and one slash, and
   the RFC's input buffer holding that slash and the unread bytes, the two end alike.
   */
  lemma {:induction false} WalkIsRemoveDots(out: Bytes, s: Bytes)
    requires Rooted(out)
    ensures Walk(out + ROOT, s) == RemoveDots(Buffers(ROOT + s, out))
    decreases |s|
  {
    hide RemoveDots, RfcStep, Backtrack, Walk, ComponentLen, RemoveLast;
    WalkUnfold(out + ROOT, s);
    if s == [] {
      RemoveDotsRoot(out);
      assert ROOT + s == ROOT;
    } else {
      var c, rest := s[..ComponentLen(s)], s[StepLen(s)..];
      RfcStepByComponent(s, out);
      RemoveDotsUnfold(Buffers(ROOT + s, out));
      if c == [DOT] {
        WalkIsRemoveDots(out, rest);
      } else if c == [DOT, DOT] {
        BacktrackIsRemoveLast(out);
        WalkIsRemoveDots(RemoveLast(out), rest);
      } else {
        var longer := out + (ROOT + c);
        assert longer[0] == SLASH;
        if |c| < |s| {
          MovedWithSlash(out, s, |c|);
          WalkIsRemoveDots(longer, rest);
        } else {
          MovedWhole(out, s);
          RemoveDotsUnfold(Buffers([], longer));
          WalkUnfold(longer, []);
        }
      }
    }
  }

  lemma MovedWithSlash(out: Bytes, s: Bytes, n: nat)
    requires n < |s| && s[n] == SLASH
    ensures out + ROOT + s[..n + 1] == out + (ROOT + s[..n]) + ROOT
    ensures s[n..] == ROOT + s[n + 1..]
  {
    assert s[..n + 1] == s[..n] + ROOT;
  }

  lemma MovedWhole(out: Bytes, s: Bytes)
    ensures out + ROOT + s[..|s|] == out + (ROOT + s[..|s|])
    ensures s[|s|..] == []
  {
  }

  lemma WalkUnfold(d: Bytes, s: Bytes)
    ensures Walk(d, s) == if s == [] then d else Walk(Emit(d, s), s[StepLen(s)..])
  {
  }

  lemma WalkFirst(path: Bytes)
    requires path != [] && path[0] == SLASH
    ensures Walk([], path) == Walk(ROOT, path[1..])
  {
    hide Backtrack, Walk;
    WalkUnfold([], path);
    assert ComponentLen(path) == 0 && StepLen(path) == 1;
    assert path[..0] == [] && Emit([], path) == ROOT;
  }

  /** On every path that starts with a slash, normalisation is remove_dot_segments. */
  lemma NormalizedIsRemoveDots(path: Bytes)
    requires path != [] && path[0] == SLASH
    ensures Normalized(path) == RemoveDotSegments(path)
    ensures Normalized(path) != []
  {
    hide RemoveDots, Walk;
    WalkFirst(path);
    assert [] + ROOT == ROOT;
    WalkIsRemoveDots([], path[1..]);
    assert ROOT + path[1..] == path;
    WalkKeepsRoot(ROOT, path[1..]);
  }

  lemma {:induction false} ToSlashKeepsRoot(d: Bytes)
    requires d != [] && d[0] == SLASH
    ensures ToSlash(d) != [] && ToSlash(d)[0] == SLASH
  {
    if d[|d| - 1] != SLASH {
      ToSlashKeepsRoot(d[..|d| - 1]);
    }
  }

  /** The leading slash is never backed over. */
  lemma {:induction false} WalkKeepsRoot(d: Bytes, s: Bytes)
    requires d != [] && d[0] == SLASH
    ensures Walk(d, s) != [] && Walk(d, s)[0] == SLASH
    decreases |s|
  {
    if s != [] {
      ToSlashKeepsRoot(if |d| > 1 && d[|d| - 1] == SLASH then d[..|d| - 1] else d);
      WalkKeepsRoot(Emit(d, s), s[StepLen(s)..]);
    }
  }

  // ----- idempotence -----

  /** No component of s is a dot segment. */
  predicate DotFree(s: Bytes)
    decreases |s|
  {
    s == [] || (!IsDots(s[..ComponentLen(s)]) && DotFree(s[StepLen(s)..]))
  }

  predicate Closed(d: Bytes) {
    d == [] || d[|d| - 1] == SLASH
  }

  lemma {:induction false} WalkOnDotFree(d: Bytes, s: Bytes)
    requires DotFree(s)
    ensures Walk(d, s) == d + s
    decreases |s|
  {
    hide Backtrack, ComponentLen;
    if s != [] {
      WalkOnDotFree(Emit(d, s), s[StepLen(s)..]);
      assert s == s[..StepLen(s)] + s[StepLen(s)..];
    }
  }

  lemma {:induction false} ComponentLenAppend(d: Bytes, t: Bytes)
    requires ComponentLen(d) < |d|
    ensures ComponentLen(d + t) == ComponentLen(d)
  {
    if d[0] != SLASH {
      assert (d + t)[1..] == d[1..] + t;
      ComponentLenAppend(d[1..], t);
    }
  }

  lemma {:induction false} ClosedHasSlash(d: Bytes)
    requires d != [] && Closed(d)
    ensures ComponentLen(d) < |d|
  {
    if d[0] != SLASH {
      ClosedHasSlash(d[1..]);
    }
  }

  lemma {:induction false} DotFreeAppend(d: Bytes, t: Bytes)
    requires Closed(d)
    ensures DotFree(d + t) <==> DotFree(d) && DotFree(t)
    decreases |d|
  {
    hide ComponentLen;
    if d == [] {
      assert d + t == t;
    } else {
      ClosedHasSlash(d);
      ComponentLenAppend(d, t);
      var n := ComponentLen(d);
      assert (d + t)[..n] == d[..n];
      assert (d + t)[n + 1..] == d[n + 1..] + t;
      DotFreeAppend(d[n + 1..], t);
    }
  }

  lemma {:induction false} ToSlashCloses(d: Bytes)
    ensures Closed(ToSlash(d))
  {
    if d != [] && d[|d| - 1] != SLASH {
      ToSlashCloses(d[..|d| - 1]);
    }
  }

  lemma BacktrackDotFree(d: Bytes)
    requires DotFree(d)
    ensures Closed(Backtrack(d)) && DotFree(Backtrack(d))
  {
    hide DotFree, ToSlash;
    var shorter := if |d| > 1 && d[|d| - 1] == SLASH then d[..|d| - 1] else d;
    var r := ToSlash(shorter);
    ToSlashCloses(shorter);
    assert r <= d;
    assert d == r + d[|r|..];
    DotFreeAppend(r, d[|r|..]);
  }

  lemma {:induction false} ComponentLenStep(s: Bytes)
    requires s != []
    ensures ComponentLen(s[..StepLen(s)]) == ComponentLen(s)
  {
    if s[0] != SLASH {
      var t := s[1..];
      if t != [] {
        ComponentLenStep(t);
        assert s[..StepLen(s)][1..] == t[..StepLen(t)];
      }
    }
  }

  lemma StepDotFree(s: Bytes)
    requires s != [] && !IsDots(s[..ComponentLen(s)])
    ensures DotFree(s[..StepLen(s)])
  {
    hide ComponentLen;
    ComponentLenStep(s);
    var step := s[..StepLen(s)];
    assert step[..ComponentLen(s)] == s[..ComponentLen(s)];
    assert step[StepLen(step)..] == [];
  }

  lemma {:induction false} WalkIsDotFree(d: Bytes, s: Bytes)
    requires Closed(d) && DotFree(d)
    ensures DotFree(Walk(d, s))
    decreases |s|
  {
    hide ComponentLen, Backtrack, DotFree, Walk;
    WalkUnfold(d, s);
    if s != [] {
      var n, rest := ComponentLen(s), s[StepLen(s)..];
      if s[..n] == [DOT] {
        WalkIsDotFree(d, rest);
      } else if s[..n] == [DOT, DOT] {
        BacktrackDotFree(d);
        WalkIsDotFree(Backtrack(d), rest);
      } else {
        var longer := d + s[..StepLen(s)];
        StepDotFree(s);
        DotFreeAppend(d, s[..StepLen(s)]);
        if n < |s| {
          assert longer[|longer| - 1] == s[n];
          WalkIsDotFree(longer, rest);
        } else {
          WalkUnfold(longer, rest);
        }
      }
    }
  }

  /** The result has no dot segment left, so normalising it again changes nothing. */
  lemma NormalizedIsIdempotent(path: Bytes)
    ensures DotFree(Normalized(path))
    ensures Normalized(Normalized(path)) == Normalized(path)
  {
    hide Walk;
    WalkIsDotFree([], path);
    var r := Normalized(path);
    WalkOnDotFree([], r);
    assert [] + r == r;
  }

  // ----- the method -----

  /** parse_uri_component with '/' as separator: the end of the component that starts at s. */
  method ScanComponent(buf: array<byte>, s: nat, len: nat) returns (end: nat)
    requires s <= len <= buf.Length
    ensures end == s + ComponentLen(buf[..][s..len])
  {
    ghost var a := buf[..];
    end := s;
    while end < len && buf[end] != SLASH
      invariant s <= end <= len
      invariant ComponentLen(a[s..len]) == end - s + ComponentLen(a[end..len])
    {
      assert a[end..len][1..] == a[end + 1..len];
      end := end + 1;
    }
  }

  /** "Backtrack to previous slash": the write cursor after dropping one segment. */
  method BacktrackCursor(buf: array<byte>, cursor: nat) returns (d: nat)
    requires cursor <= buf.Length
    ensures d <= cursor && buf[..][..d] == Backtrack(buf[..][..cursor])
  {
    ghost var a := buf[..];
    d := cursor;
    if d > 1 && buf[d - 1] == SLASH {
      d := d - 1;
      assert a[..cursor][..d] == a[..d];
    }
    ghost var start := a[..d];
    while d > 0 && buf[d - 1] != SLASH
      invariant d <= cursor && d <= |start|
      invariant ToSlash(a[..d]) == ToSlash(start)
    {
      assert a[..d][..d - 1] == a[..d - 1];
      d := d - 1;
    }
  }

  lemma ComponentAt(a: Bytes, s: nat, len: nat)
    requires s < len <= |a|
    ensures var n, rest := ComponentLen(a[s..len]), a[s..len];
            && rest[..n] == a[s..s + n] && rest[..StepLen(rest)] == a[s..s + StepLen(rest)]
            && rest[StepLen(rest)..] == a[s + StepLen(rest)..len]
            && (rest[..n] == [DOT] <==> n == 1 && a[s] == DOT)
            && (rest[..n] == [DOT, DOT] <==> n == 2 && a[s] == DOT && a[s + 1] == DOT)
  {
    hide ComponentLen;
    var n, rest := ComponentLen(a[s..len]), a[s..len];
    assert n > 0 ==> rest[..n][0] == a[s];
    assert n > 1 ==> rest[..n][1] == a[s + 1];
  }

  /** The emitted bytes, by what the cursors see. */
  lemma EmitAt(a: Bytes, cursor: nat, s: nat, len: nat)
    requires cursor <= s < len <= |a|
    ensures var n := ComponentLen(a[s..len]);
            Emit(a[..cursor], a[s..len]) ==
              if n == 1 && a[s] == DOT then a[..cursor]
              else if n == 2 && a[s] == DOT && a[s + 1] == DOT then Backtrack(a[..cursor])
              else a[..cursor] + a[s..s + StepLen(a[s..len])]
  {
    hide ComponentLen, Backtrack;
    ComponentAt(a, s, len);
  }

  /** The body of the loop, for the component between s and end. */
  method EmitInPlace(buf: array<byte>, cursor: nat, s: nat, end: nat, next: nat, len: nat) returns (d: nat)
    requires cursor <= s < len <= buf.Length
    requires end == s + ComponentLen(buf[..][s..len]) && next == s + StepLen(buf[..][s..len])
    modifies buf
    ensures d <= next
    ensures buf[..][..d] == Emit(old(buf[..])[..cursor], old(buf[..])[s..len])
    ensures buf[..][next..] == old(buf[..])[next..]
  {
    hide ComponentLen, Backtrack, Overwrite, Emit;
    ghost var was := buf[..];
    EmitAt(was, cursor, s, len);
    d := cursor;
    if end - s == 1 && buf[s] == DOT {
      // Yum.
    } else if end - s == 2 && buf[s] == DOT && buf[s + 1] == DOT {
      d := BacktrackCursor(buf, d);
    } else {
      MemMove(buf, d, s, next - s);
      d := d + (next - s);
      OverwriteEnds(was, cursor, was[s..next], next);
    }
  }

  lemma Suffixes(a: Bytes, b: Bytes, next: nat, len: nat)
    requires next <= len <= |a| == |b| && a[next..] == b[next..]
    ensures a[next..len] == b[next..len] && a[len..] == b[len..]
  {
    assert a[next..len] == a[next..][..len - next] && b[next..len] == b[next..][..len - next];
    assert a[len..] == a[next..][len - next..] && b[len..] == b[next..][len - next..];
  }

  /** One turn of the loop: scan the component at s, then emit it. */
  method StepInPlace(buf: array<byte>, cursor: nat, s: nat, len: nat) returns (d: nat, next: nat)
    requires cursor <= s < len <= buf.Length
    modifies buf
    ensures d <= next <= len && s < next
    ensures Walk(buf[..][..d], buf[..][next..len]) == Walk(old(buf[..])[..cursor], old(buf[..])[s..len])
    ensures buf[..][len..] == old(buf[..])[len..]
  {
    hide ComponentLen, Walk, Emit;
    ghost var a := buf[..];
    var end := ScanComponent(buf, s, len);
    next := if end < len then end + 1 else end;
    WalkUnfold(a[..cursor], a[s..len]);
    ComponentAt(a, s, len);
    d := EmitInPlace(buf, cursor, s, end, next, len);
    Suffixes(a, buf[..], next, len);
  }

  method WalkInPlace(buf: array<byte>, len: nat) returns (d: nat)
    requires len <= buf.Length
    modifies buf
    ensures d <= len && buf[..][..d] == Walk([], old(buf[..])[..len])
    ensures buf[..][len..] == old(buf[..])[len..]
  {
    hide Walk;
    ghost var was := buf[..];
    var s: nat := 0;
    d := 0;
    assert was[0..len] == was[..len] && was[..0] == [];
    while s < len
      invariant d <= s <= len
      invariant Walk(buf[..][..d], buf[..][s..len]) == Walk([], was[..len])
      invariant buf[..][len..] == was[len..]
      decreases len - s
    {
      d, s := StepInPlace(buf, d, s, len);
    }
    ghost var a := buf[..];
    assert a[len..len] == [];
    WalkUnfold(a[..d], []);
  }

  /**
   mg_normalize_uri_path with `out` aliasing `in`: the first len bytes of buf are the path, and
   the write cursor d never overtakes the read cursor s.
   */
  method NormalizeUriPath(buf: array<byte>, len: nat) returns (ok: bool, outLen: nat)
    requires len <= buf.Length
    modifies buf
    ensures ok <==> len > 0 && old(buf[..])[0] == SLASH
    ensures !ok ==> outLen == 0 && buf[..] == old(buf[..])
    ensures ok ==> outLen <= len && buf[..][..outLen] == RemoveDotSegments(old(buf[..])[..len])
    ensures buf[..][len..] == old(buf[..])[len..]
  {
    if len == 0 || buf[0] != SLASH {
      return false, 0;
    }
    hide Walk, RemoveDots;
    ghost var path := buf[..][..len];
    var d := WalkInPlace(buf, len);
    NormalizedIsRemoveDots(path);
    assert d > 0;   // the branch for an empty result, d == cp, is never taken
    return true, d;
  }

  // ----- what the words mean -----

  /** A segment without a slash goes, together with the slash in front of it. */
  lemma {:induction false} RemoveLastIs(out: Bytes, segment: Bytes)
    requires SLASH !in segment
    ensures RemoveLast(out + [SLASH] + segment) == out && RemoveLast(segment) == []
  {
    var all := out + [SLASH] + segment;
    if segment == [] {
      assert all[..|all| - 1] == out;
    } else {
      var shorter := segment[..|segment| - 1];
      assert all[..|all| - 1] == out + [SLASH] + shorter;
      RemoveLastIs(out, shorter);
    }
  }

  lemma {:induction false} ComponentLenIs(c: Bytes, rest: Bytes)
    requires SLASH !in c
    ensures ComponentLen(c + [SLASH] + rest) == |c|
  {
    if c != [] {
      assert (c + [SLASH] + rest)[1..] == c[1..] + [SLASH] + rest;
      ComponentLenIs(c[1..], rest);
    }
  }

  /** What the walk does with one component. */
  lemma WalkComponent(d: Bytes, c: Bytes, rest: Bytes)
    requires SLASH !in c
    ensures Walk(d, c + [SLASH] + rest)
         == Walk(if c == [DOT] then d else if c == [DOT, DOT] then Backtrack(d) else d + (c + [SLASH]), rest)
  {
    hide Walk, ComponentLen, Backtrack;
    var s := c + [SLASH] + rest;
    ComponentLenIs(c, rest);
    WalkUnfold(d, s);
    assert s[..|c|] == c && s[..|c| + 1] == c + [SLASH] && s[|c| + 1..] == rest;
  }

  /** It goes back over the component before. */
  lemma BacktrackIs(d: Bytes, c: Bytes)
    requires SLASH !in c && c != [] && Rooted(d)
    ensures Backtrack(d + [SLASH] + c + [SLASH]) == d + [SLASH]
  {
    hide Backtrack, RemoveLast;
    var out := d + [SLASH] + c;
    BacktrackIsRemoveLast(out);
    RemoveLastIs(d, c);
  }

  /** An example: with two components and ".." between them the first one goes. */
  lemma DotsExample()
    ensures Normalized(Ascii("/a/./../g/")) == Ascii("/g/")
  {
    hide Walk, Backtrack;
    var none: Bytes, a, g := [], Ascii("a"), Ascii("g");
    var three := [DOT, DOT] + [SLASH] + (g + [SLASH] + none);
    var two := [DOT] + [SLASH] + three;
    assert Ascii("/a/./../g/") == none + [SLASH] + (a + [SLASH] + two);
    assert a == [97] && g == [103] && |[DOT]| == 1 && |[DOT, DOT]| == 2;
    assert a[0] != DOT && g[0] != DOT;
    WalkComponent(none, none, a + [SLASH] + two);
    assert none + (none + [SLASH]) == [SLASH];
    WalkComponent([SLASH], a, two);
    var d := [SLASH] + (a + [SLASH]);
    WalkComponent(d, [DOT], three);
    WalkComponent(d, [DOT, DOT], g + [SLASH] + none);
    assert d == none + [SLASH] + a + [SLASH] && none + [SLASH] == [SLASH];
    BacktrackIs(none, a);
    WalkComponent([SLASH], g, none);
    WalkUnfold([SLASH] + (g + [SLASH]), none);
    assert [SLASH] + (g + [SLASH]) == Ascii("/g/");
  }
}
