/** Bytes and byte sequences: the vocabulary shared by every decoder. */
module Bytes {

  type byte = x: int | 0 <= x < 256

  type Bytes = seq<byte>

  type u32 = x: int | 0 <= x < 0x1_0000_0000

  const NUL: byte := 0
  const LF: byte := 10
  const CR: byte := 13
  const DASH: byte := 45
  const DOT: byte := 46
  const SLASH: byte := 47
  const CRLF: Bytes := [CR, LF]

  /** tolower */
  function Lower(b: byte): byte {
    if 65 <= b <= 90 then b + 32 else b
  }

  /** Equal but for the case of letters. */
  predicate SameText(s: Bytes, t: Bytes) {
    |s| == |t| && forall i :: 0 <= i < |s| ==> Lower(s[i]) == Lower(t[i])
  }

  /** The bytes of a text, for writing down examples. */
  function Ascii(text: string): (s: Bytes)
    ensures |s| == |text|
  {
    seq(|text|, i requires 0 <= i < |text| => if text[i] < 128 as char then text[i] as byte else 0)
  }

  /** Lower turns capital letters into small ones and leaves all other bytes alone. */
  lemma LowerLetters(b: byte)
    ensures var capitals, letters := Ascii("ABCDEFGHIJKLMNOPQRSTUVWXYZ"), Ascii("abcdefghijklmnopqrstuvwxyz");
            && (forall i :: 0 <= i < 26 ==> Lower(capitals[i]) == letters[i])
            && (b !in capitals ==> Lower(b) == b)
  {
    hide Lower, Ascii;
    LettersInOrder();
    LowerIs(b);
    var capitals := Ascii("ABCDEFGHIJKLMNOPQRSTUVWXYZ");
    forall i | 0 <= i < 26
      ensures Lower(capitals[i]) == capitals[i] + 32
    {
      LowerIs(capitals[i]);
    }
    assert 65 <= b <= 90 ==> b == capitals[b - 65];
  }

  lemma LowerIs(b: byte)
    ensures Lower(b) == if 65 <= b <= 90 then b + 32 else b
  {
  }

  lemma LettersInOrder()
    ensures var capitals, letters := Ascii("ABCDEFGHIJKLMNOPQRSTUVWXYZ"), Ascii("abcdefghijklmnopqrstuvwxyz");
            forall i :: 0 <= i < 26 ==> capitals[i] == 65 + i && letters[i] == 97 + i
  {
  }

  datatype Option<+T> = None | Some(value: T)

  /** The concatenation of a list of pieces: what a connection has received so far. */
  function Flatten<T>(pieces: seq<seq<T>>): seq<T> {
    if pieces == [] then [] else pieces[0] + Flatten(pieces[1..])
  }

  lemma FlattenCons<T>(pieces: seq<seq<T>>)
    ensures Flatten(pieces) == if pieces == [] then [] else pieces[0] + Flatten(pieces[1..])
  {
  }

  lemma {:induction false} FlattenSnoc<T>(pieces: seq<seq<T>>, last: seq<T>)
    ensures Flatten(pieces + [last]) == Flatten(pieces) + last
  {
    if pieces == [] {
      assert pieces + [last] == [last];
      assert [last][1..] == [];
      assert Flatten([last]) == last + Flatten<T>([]);
    } else {
      FlattenSnoc(pieces[1..], last);
      assert (pieces + [last])[1..] == pieces[1..] + [last];
      assert (pieces + [last])[0] == pieces[0];
    }
  }

  lemma {:induction false} FlattenAppend<T>(a: seq<seq<T>>, b: seq<seq<T>>)
    ensures Flatten(a + b) == Flatten(a) + Flatten(b)
  {
    if a == [] {
      assert a + b == b;
    } else {
      FlattenAppend(a[1..], b);
      assert (a + b)[1..] == a[1..] + b && (a + b)[0] == a[0];
      assert a[0] + (Flatten(a[1..]) + Flatten(b)) == (a[0] + Flatten(a[1..])) + Flatten(b);
    }
  }

  lemma Regroup<T>(a: seq<T>, b: seq<T>, c: seq<T>)
    ensures (a + b) + c == a + (b + c)
  {
  }

  lemma RegroupFour<T>(a: seq<T>, b: seq<T>, c: seq<T>, d: seq<T>)
    ensures a + b + c + d == a + (b + c + d)
  {
  }

  lemma RegroupFive<T>(a: seq<T>, b: seq<T>, c: seq<T>, d: seq<T>, e: seq<T>)
    ensures a + b + c + d + e == a + (b + c + d + e)
  {
  }

  /** s with the bytes from dst on replaced by data. */
  function Overwrite<T>(s: seq<T>, dst: nat, data: seq<T>): (r: seq<T>)
    requires dst + |data| <= |s|
    ensures |r| == |s|
  {
    s[..dst] + data + s[dst + |data|..]
  }

  lemma OverwriteAbove<T>(s: seq<T>, dst: nat, data: seq<T>, lo: nat, hi: nat)
    requires dst + |data| <= lo <= hi <= |s|
    ensures Overwrite(s, dst, data)[lo..hi] == s[lo..hi]
  {
  }

  lemma OverwriteEnds<T>(s: seq<T>, dst: nat, data: seq<T>, hi: nat)
    requires dst + |data| <= hi <= |s|
    ensures Overwrite(s, dst, data)[..dst + |data|] == s[..dst] + data
    ensures Overwrite(s, dst, data)[hi..] == s[hi..]
  {
  }

  lemma OverwriteNothing<T>(s: seq<T>, dst: nat)
    requires dst <= |s|
    ensures Overwrite(s, dst, []) == s
  {
  }

  lemma OverwriteTail<T>(s: seq<T>, tail: seq<T>, data: seq<T>)
    requires |data| <= |tail|
    ensures Overwrite(s + tail, |s|, data) == s + data + tail[|data|..]
  {
  }

  /** Writing just behind an earlier write is one longer write. */
  lemma OverwriteTwice<T>(s: seq<T>, dst: nat, first: seq<T>, second: seq<T>)
    requires dst + |first| + |second| <= |s|
    ensures Overwrite(Overwrite(s, dst, first), dst + |first|, second) == Overwrite(s, dst, first + second)
  {
  }

  lemma OverwritePrefix<T>(s: seq<T>, dst: nat, data: seq<T>, len: nat)
    requires dst + |data| <= len <= |s|
    ensures Overwrite(s, dst, data)[..len] == Overwrite(s[..len], dst, data)
  {
  }

  lemma OverwriteGap<T>(s: seq<T>, off: nat, n: nat, len: nat)
    requires off <= len && len + n <= |s|
    ensures var r := Overwrite(s, off + n, s[off..len])[..len + n];
            r == s[..len][..off] + r[off..off + n] + s[..len][off..]
  {
  }

  lemma OverwriteByIndex<T>(s: seq<T>, dst: nat, data: seq<T>, r: seq<T>)
    requires dst + |data| <= |s| == |r|
    requires forall k :: dst <= k < dst + |data| ==> r[k] == data[k - dst]
    requires forall k :: 0 <= k < |s| && !(dst <= k < dst + |data|) ==> r[k] == s[k]
    ensures r == Overwrite(s, dst, data)
  {
  }

  lemma DivideAgain(n: nat)
    ensures n / 256 / 256 == n / 65536
  {
  }

  /** The four bytes of a 32-bit number. */
  lemma FourDigits(n: nat)
    requires n < 0x1_0000_0000
    ensures n == n % 256 + 256 * (n / 256 % 256) + 65536 * (n / 65536 % 256) + 16777216 * (n / 16777216 % 256)
  {
    var n1, n2 := n / 256, n / 65536;
    var n3 := n2 / 256;
    DivideAgain(n);
    DivideAgain(n1);
    assert n3 == n / 16777216;
    assert n == 256 * n1 + n % 256 && n1 == 256 * n2 + n1 % 256 && n2 == 256 * n3 + n2 % 256;
  }

  /** memmove: copy n elements from src to dst inside one array, overlap allowed. */
  method MemMove(a: array<byte>, dst: nat, src: nat, n: nat)
    requires dst + n <= a.Length && src + n <= a.Length
    modifies a
    ensures a[..] == Overwrite(old(a[..]), dst, old(a[..])[src..src + n])
  {
    if dst <= src {
      CopyForward(a, dst, src, n);
    } else {
      CopyBackward(a, dst, src, n);
    }
  }

  method CopyForward(a: array<byte>, dst: nat, src: nat, n: nat)
    requires dst <= src && src + n <= a.Length
    modifies a
    ensures a[..] == Overwrite(old(a[..]), dst, old(a[..])[src..src + n])
  {
    hide Overwrite;
    ghost var was, data := a[..], a[..][src..src + n];
    for i := 0 to n
      invariant forall k :: dst <= k < dst + i ==> a[k] == data[k - dst]
      invariant forall k :: 0 <= k < a.Length && !(dst <= k < dst + i) ==> a[k] == was[k]
    {
      a[dst + i] := a[src + i];
    }
    OverwriteByIndex(was, dst, data, a[..]);
  }

  method CopyBackward(a: array<byte>, dst: nat, src: nat, n: nat)
    requires src <= dst && dst + n <= a.Length
    modifies a
    ensures a[..] == Overwrite(old(a[..]), dst, old(a[..])[src..src + n])
  {
    hide Overwrite;
    ghost var was, data := a[..], a[..][src..src + n];
    for i := n downto 0
      invariant forall k :: dst + i <= k < dst + n ==> a[k] == data[k - dst]
      invariant forall k :: 0 <= k < a.Length && !(dst + i <= k < dst + n) ==> a[k] == was[k]
    {
      a[dst + i] := a[src + i];
    }
    OverwriteByIndex(was, dst, data, a[..]);
  }

  /** memset */
  method MemSet(a: array<byte>, dst: nat, value: byte, n: nat)
    requires dst + n <= a.Length
    modifies a
    ensures a[..] == Overwrite(old(a[..]), dst, seq(n, _ => value))
  {
    ghost var was := a[..];
    for i := 0 to n
      invariant forall k :: dst <= k < dst + i ==> a[k] == value
      invariant forall k :: 0 <= k < a.Length && !(dst <= k < dst + i) ==> a[k] == was[k]
    {
      a[dst + i] := value;
    }
  }

  /** memcpy of a caller's bytes into an array. */
  method MemCopy(a: array<byte>, dst: nat, data: Bytes)
    requires dst + |data| <= a.Length
    modifies a
    ensures a[..] == Overwrite(old(a[..]), dst, data)
  {
    ghost var was := a[..];
    for i := 0 to |data|
      invariant forall k :: dst <= k < dst + i ==> a[k] == data[k - dst]
      invariant forall k :: 0 <= k < a.Length && !(dst <= k < dst + i) ==> a[k] == was[k]
    {
      a[dst + i] := data[i];
    }
  }
}
