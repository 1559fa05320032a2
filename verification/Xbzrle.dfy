/**
 XBZRLE of xbzrle.c: a page is sent as the runs in which it differs from the
 previous copy. Lengths are written with the small form of uleb128.
*/
module Xbzrle {

  newtype byte = x: int | 0 <= x < 256

  datatype Encoded = Unchanged | Overflow | Delta(bytes: seq<byte>)

  const LONG: nat := 8 // sizeof(long)

  // ---- uleb128 ----

  function Uleb(n: nat): (r: seq<byte>)
    requires n <= 0x3fff
    ensures 1 <= |r| <= 2
  {
    if n < 0x80 then [n as byte] else [(n % 0x80 + 0x80) as byte, (n / 0x80) as byte]
  }

  // Value and width of the number at the front of s, or -1.
  function UnUleb(s: seq<byte>): (r: (nat, int))
    requires |s| >= 2
    ensures r.1 == -1 || 1 <= r.1 <= 2
  {
    if s[0] < 0x80 then (s[0] as nat, 1)
    else if s[1] >= 0x80 then (0, -1)
    else ((s[0] as nat - 0x80) + 0x80 * (s[1] as nat), 2)
  }

  lemma UlebRoundTrip(n: nat, rest: seq<byte>)
    requires n <= 0x3fff && |rest| >= 1
    ensures UnUleb(Uleb(n) + rest) == (n, |Uleb(n)|)
    ensures (Uleb(n) + rest)[|Uleb(n)|..] == rest
  {
  }

  // ---- runs ----

  // First index >= i at which a and b differ (when `same`) or agree (otherwise).
  function RunEnd(a: seq<byte>, b: seq<byte>, i: nat, same: bool): (e: nat)
    requires |a| == |b| && i <= |a|
    ensures i <= e <= |a|
    ensures forall k | i <= k < e :: (a[k] == b[k]) == same
    ensures e < |a| ==> (a[e] == b[e]) != same
    decreases |a| - i
  {
    if i < |a| && (a[i] == b[i]) == same then RunEnd(a, b, i + 1, same) else i
  }

  lemma RunEndUnique(a: seq<byte>, b: seq<byte>, i: nat, same: bool, e: nat)
    requires |a| == |b| && i <= e <= |a|
    requires forall k | i <= k < e :: (a[k] == b[k]) == same
    requires e < |a| ==> (a[e] == b[e]) != same
    ensures RunEnd(a, b, i, same) == e
  {
  }

  /** The format: alternating lengths of equal and of changed runs, the changed
      bytes after their length, and no trailing run of equal bytes. */
  function Runs(was: seq<byte>, now: seq<byte>, i: nat): seq<byte>
    requires |was| == |now| <= 0x3fff && i <= |now|
    decreases |now| - i
  {
    var z := RunEnd(was, now, i, true);
    if z == |now| then []
    else
      var n := RunEnd(was, now, z, false);
      Uleb(z - i) + (Uleb(n - z) + (now[z..n] + Runs(was, now, n)))
  }

  // One turn of the decoder: the length of the equal run, the changed bytes and what follows them.
  datatype Turn = Malformed | Turn(zrun: nat, data: seq<byte>, tail: seq<byte>)

  function ParseTurn(delta: seq<byte>, first: bool): (t: Turn)
    ensures t.Turn? ==> t.data != [] && |t.tail| < |delta|
  {
    if |delta| < 2 then Malformed
    else
      var (zrun, w) := UnUleb(delta);
      if w < 0 || (!first && zrun == 0) || |delta| - w < 2 then Malformed
      else ParseData(zrun, delta[w..])
  }

  function ParseData(zrun: nat, rest: seq<byte>): (t: Turn)
    requires |rest| >= 2
    ensures t.Turn? ==> t.zrun == zrun && t.data != [] && |t.tail| < |rest|
  {
    var (nzrun, v) := UnUleb(rest);
    if v < 0 || nzrun == 0 || v + nzrun > |rest| then Malformed
    else Turn(zrun, rest[v..v + nzrun], rest[v + nzrun..])
  }

  // xbzrle_decode_buffer: the page that the delta turns `page` into, from position d on.
  function Apply(delta: seq<byte>, page: seq<byte>, d: nat, first: bool): (r: (bool, seq<byte>))
    requires d <= |page|
    ensures |r.1| == |page|
    decreases |delta|
  {
    if delta == [] then (true, page)
    else
      var t := ParseTurn(delta, first);
      if t.Malformed? || d + t.zrun + |t.data| > |page| then (false, page)
      else
        var at := d + t.zrun;
        Apply(t.tail, page[..at] + t.data + page[at + |t.data|..], at + |t.data|, false)
  }

  lemma ParseDataStep(z: nat, data: seq<byte>, tail: seq<byte>)
    requires 0 < |data| <= 0x3fff
    ensures ParseData(z, Uleb(|data|) + (data + tail)) == Turn(z, data, tail)
  {
    hide Uleb, UnUleb;
    var v := |Uleb(|data|)|;
    var rest := Uleb(|data|) + (data + tail);
    UlebRoundTrip(|data|, data + tail);
    assert rest[v..v + |data|] == data && rest[v + |data|..] == tail;
  }

  lemma ParseTurnStep(z: nat, data: seq<byte>, tail: seq<byte>, first: bool)
    requires z <= 0x3fff && 0 < |data| <= 0x3fff && (first || z != 0)
    ensures ParseTurn(Uleb(z) + (Uleb(|data|) + (data + tail)), first) == Turn(z, data, tail)
  {
    hide Uleb, UnUleb, ParseData;
    UlebRoundTrip(z, Uleb(|data|) + (data + tail));
    ParseDataStep(z, data, tail);
  }

  lemma ApplyTurn(delta: seq<byte>, data: seq<byte>, tail: seq<byte>, page: seq<byte>, d: nat, at: nat, first: bool)
    requires d <= at && at + |data| <= |page| && delta != [] && ParseTurn(delta, first) == Turn(at - d, data, tail)
    ensures Apply(delta, page, d, first) == Apply(tail, page[..at] + data + page[at + |data|..], at + |data|, false)
  {
    hide ParseTurn;
  }

  lemma PageStep(was: seq<byte>, now: seq<byte>, i: nat, z: nat, n: nat)
    requires |was| == |now| && i <= z <= n <= |now|
    requires forall k | i <= k < z :: was[k] == now[k]
    ensures var page := now[..i] + was[i..]; page[..z] + now[z..n] + page[n..] == now[..n] + was[n..]
  {
    var page := now[..i] + was[i..];
    assert page[..z] == now[..z];
    assert page[n..] == was[n..];
    assert now[..z] + now[z..n] == now[..n];
  }

  // Decoding the runs from position i on turns a page that is new before i and old after it into new.
  lemma {:induction false} RunsRoundTrip(was: seq<byte>, now: seq<byte>, i: nat)
    requires |was| == |now| <= 0x3fff && i <= |now|
    requires 0 < i < |now| ==> was[i] == now[i]
    ensures Apply(Runs(was, now, i), now[..i] + was[i..], i, i == 0) == (true, now)
    decreases |now| - i
  {
    hide Uleb, RunEnd, ParseTurn, Apply;
    var z := RunEnd(was, now, i, true);
    var page := now[..i] + was[i..];
    if z == |now| {
      assert page == now;
      ApplyNothing(page, i, i == 0);
    } else {
      var n := RunEnd(was, now, z, false);
      var data, tail := now[z..n], Runs(was, now, n);
      ParseTurnStep(z - i, data, tail, i == 0);
      ApplyTurn(Runs(was, now, i), data, tail, page, i, z, i == 0);
      PageStep(was, now, i, z, n);
      RunsRoundTrip(was, now, n);
    }
  }

  lemma ApplyNothing(page: seq<byte>, d: nat, first: bool)
    requires d <= |page|
    ensures Apply([], page, d, first) == (true, page)
  {
  }

  lemma RunsEmpty(was: seq<byte>, now: seq<byte>)
    requires |was| == |now| <= 0x3fff
    ensures Runs(was, now, 0) == [] <==> was == now
  {
  }

  // ---- words of eight bytes ----

  // What is left of n without its bit w.
  function Less(n: int, w: int): int {
    if n >= w then n - w else n
  }

  // The bits of a byte, the highest first.
  function Flags(n: int): (bool, bool, bool, bool, bool, bool, bool, bool) {
    var n7 := Less(n, 128);
    var n6 := Less(n7, 64);
    var n5 := Less(n6, 32);
    var n4 := Less(n5, 16);
    var n3 := Less(n4, 8);
    var n2 := Less(n3, 4);
    var n1 := Less(n2, 2);
    (n >= 128, n7 >= 64, n6 >= 32, n5 >= 16, n4 >= 8, n3 >= 4, n2 >= 2, n1 >= 1)
  }

  function FromBits(h: bool, g: bool, f: bool, e: bool, d: bool, c: bool, b: bool, a: bool): bv8 {
    (if a then 1 else 0) | (if b then 2 else 0) | (if c then 4 else 0) | (if d then 8 else 0)
    | (if e then 16 else 0) | (if f then 32 else 0) | (if g then 64 else 0) | (if h then 128 else 0)
  }

  // A byte as the machine holds it.
  function Bits(n: byte): bv8 {
    var (h, g, f, e, d, c, b, a) := Flags(n as int);
    FromBits(h, g, f, e, d, c, b, a)
  }

  lemma FromBitsInjective()
    ensures forall a, b, c, d, e, f, g, h, a', b', c', d', e', f', g', h' |
              FromBits(a, b, c, d, e, f, g, h) == FromBits(a', b', c', d', e', f', g', h') ::
              a == a' && b == b' && c == c' && d == d' && e == e' && f == f' && g == g' && h == h'
  {
  }

  lemma FlagsInjective(a: int, b: int)
    requires 0 <= a < 256 && 0 <= b < 256 && Flags(a) == Flags(b)
    ensures a == b
  {
    var a6, b6 := Less(Less(a, 128), 64), Less(Less(b, 128), 64);
    var a4, b4 := Less(Less(a6, 32), 16), Less(Less(b6, 32), 16);
    assert 0 <= a4 < 16 && 0 <= b4 < 16;
    assert a4 == b4;
    assert a6 == b6;
  }

  lemma BitsInjective(a: byte, b: byte)
    ensures Bits(a) == Bits(b) <==> a == b
  {
    hide FromBits;
    if Bits(a) == Bits(b) {
      FromBitsInjective();
      FlagsInjective(a as int, b as int);
    }
  }

  function Join(a: bv8, b: bv8, c: bv8, d: bv8, e: bv8, f: bv8, g: bv8, h: bv8): bv64 {
    (a as bv64) | ((b as bv64) << 8) | ((c as bv64) << 16) | ((d as bv64) << 24)
    | ((e as bv64) << 32) | ((f as bv64) << 40) | ((g as bv64) << 48) | ((h as bv64) << 56)
  }

  // The word at i, as a little-endian host reads it.
  function Word(s: seq<byte>, i: nat): bv64
    requires i + LONG <= |s|
  {
    Join(Bits(s[i]), Bits(s[i + 1]), Bits(s[i + 2]), Bits(s[i + 3]),
         Bits(s[i + 4]), Bits(s[i + 5]), Bits(s[i + 6]), Bits(s[i + 7]))
  }

  // The word test of the encoder.
  predicate WordTest(xor: bv64) {
    (xor - 0x0101010101010101) & !xor & (0x0101010101010101 << 7) != 0
  }

  // The word test is nonzero exactly when some byte of the word is zero.
  lemma SwarFindsZeroByte(a0: bv8, a1: bv8, a2: bv8, a3: bv8, a4: bv8, a5: bv8, a6: bv8, a7: bv8)
    ensures WordTest(Join(a0, a1, a2, a3, a4, a5, a6, a7)) <==>
            a0 == 0 || a1 == 0 || a2 == 0 || a3 == 0 || a4 == 0 || a5 == 0 || a6 == 0 || a7 == 0
  {
  }

  lemma XorOfJoined(a0: bv8, a1: bv8, a2: bv8, a3: bv8, a4: bv8, a5: bv8, a6: bv8, a7: bv8,
                    b0: bv8, b1: bv8, b2: bv8, b3: bv8, b4: bv8, b5: bv8, b6: bv8, b7: bv8)
    ensures Join(a0, a1, a2, a3, a4, a5, a6, a7) ^ Join(b0, b1, b2, b3, b4, b5, b6, b7) ==
            Join(a0 ^ b0, a1 ^ b1, a2 ^ b2, a3 ^ b3, a4 ^ b4, a5 ^ b5, a6 ^ b6, a7 ^ b7)
  {
  }

  lemma XorZero(a: bv8, b: bv8)
    ensures a ^ b == 0 <==> a == b
  {
  }

  lemma SwarFindsEqualByte(a0: bv8, a1: bv8, a2: bv8, a3: bv8, a4: bv8, a5: bv8, a6: bv8, a7: bv8,
                           b0: bv8, b1: bv8, b2: bv8, b3: bv8, b4: bv8, b5: bv8, b6: bv8, b7: bv8)
    ensures WordTest(Join(a0, a1, a2, a3, a4, a5, a6, a7) ^ Join(b0, b1, b2, b3, b4, b5, b6, b7)) <==>
            a0 == b0 || a1 == b1 || a2 == b2 || a3 == b3 || a4 == b4 || a5 == b5 || a6 == b6 || a7 == b7
  {
    hide Join, WordTest;
    XorOfJoined(a0, a1, a2, a3, a4, a5, a6, a7, b0, b1, b2, b3, b4, b5, b6, b7);
    SwarFindsZeroByte(a0 ^ b0, a1 ^ b1, a2 ^ b2, a3 ^ b3, a4 ^ b4, a5 ^ b5, a6 ^ b6, a7 ^ b7);
    XorZero(a0, b0);
    XorZero(a1, b1);
    XorZero(a2, b2);
    XorZero(a3, b3);
    XorZero(a4, b4);
    XorZero(a5, b5);
    XorZero(a6, b6);
    XorZero(a7, b7);
  }

  // The test on two words finds whether some byte is the same in both.
  lemma WordTestExact(was: seq<byte>, now: seq<byte>, i: nat)
    requires |was| == |now| && i + LONG <= |now|
    ensures WordTest(Word(was, i) ^ Word(now, i)) <==> exists k | i <= k < i + LONG :: was[k] == now[k]
  {
    hide Bits, Join, WordTest;
    SwarFindsEqualByte(
      Bits(was[i]), Bits(was[i + 1]), Bits(was[i + 2]), Bits(was[i + 3]),
      Bits(was[i + 4]), Bits(was[i + 5]), Bits(was[i + 6]), Bits(was[i + 7]),
      Bits(now[i]), Bits(now[i + 1]), Bits(now[i + 2]), Bits(now[i + 3]),
      Bits(now[i + 4]), Bits(now[i + 5]), Bits(now[i + 6]), Bits(now[i + 7]));
    forall k | i <= k < i + LONG
      ensures Bits(was[k]) == Bits(now[k]) <==> was[k] == now[k]
    {
      BitsInjective(was[k], now[k]);
    }
    if k :| i <= k < i + LONG && was[k] == now[k] {
      assert k in {i, i + 1, i + 2, i + 3, i + 4, i + 5, i + 6, i + 7};
    }
  }

  // ---- the encoder and the decoder ----

  // Length of the equal run at i: bytes up to word alignment, then words, then the rest.
  method ZeroRun(was: seq<byte>, now: seq<byte>, i0: nat) returns (i: nat)
    requires |was| == |now| && i0 <= |now|
    ensures i == RunEnd(was, now, i0, true)
  {
    i := i0;
    var res := (|now| - i) % LONG;
    while res > 0 && was[i] == now[i]
      invariant i0 <= i && i + res <= |now| && (|now| - i) % LONG == res
      invariant forall k | i0 <= k < i :: was[k] == now[k]
    {
      i := i + 1;
      res := res - 1;
    }
    if res == 0 {
      while i < |now| && was[i..i + LONG] == now[i..i + LONG]
        invariant i0 <= i <= |now| && (|now| - i) % LONG == 0
        invariant forall k | i0 <= k < i :: was[k] == now[k]
      {
        assert forall k | i <= k < i + LONG :: was[k] == was[i..i + LONG][k - i] && now[k] == now[i..i + LONG][k - i];
        i := i + LONG;
      }
      while i < |now| && was[i] == now[i]
        invariant i0 <= i <= |now|
        invariant forall k | i0 <= k < i :: was[k] == now[k]
      {
        i := i + 1;
      }
    }
    RunEndUnique(was, now, i0, true, i);
  }

  // Length of the changed run at i; a word without equal bytes is taken in one step.
  method ChangedRun(was: seq<byte>, now: seq<byte>, i0: nat) returns (i: nat)
    requires |was| == |now| && i0 <= |now|
    ensures i == RunEnd(was, now, i0, false)
  {
    hide WordTest, Word;
    i := i0;
    var res := (|now| - i) % LONG;
    while res > 0 && was[i] != now[i]
      invariant i0 <= i && i + res <= |now| && (|now| - i) % LONG == res
      invariant forall k | i0 <= k < i :: was[k] != now[k]
    {
      i := i + 1;
      res := res - 1;
    }
    if res == 0 {
      while i < |now|
        invariant i0 <= i <= |now| && (|now| - i) % LONG == 0
        invariant forall k | i0 <= k < i :: was[k] != now[k]
      {
        WordTestExact(was, now, i);
        if WordTest(Word(was, i) ^ Word(now, i)) {
          ghost var end := i + LONG;
          while was[i] != now[i]
            invariant i0 <= i < end <= |now|
            invariant exists k :: i <= k < end && was[k] == now[k]
            invariant forall k | i0 <= k < i :: was[k] != now[k]
            decreases end - i
          {
            i := i + 1;
          }
          break;
        } else {
          i := i + LONG;
        }
      }
    }
    RunEndUnique(was, now, i0, false, i);
  }

  lemma ConcatAssoc(p: seq<byte>, a: seq<byte>, b: seq<byte>, c: seq<byte>, d: seq<byte>)
    ensures p + (a + (b + (c + d))) == p + a + b + c + d
  {
  }

  lemma RunsStep(was: seq<byte>, now: seq<byte>, i: nat)
    requires |was| == |now| <= 0x3fff && i <= |now|
    ensures var z := RunEnd(was, now, i, true);
            if z == |now| then Runs(was, now, i) == []
            else
              var n := RunEnd(was, now, z, false);
              n > z && Runs(was, now, i) == Uleb(z - i) + (Uleb(n - z) + (now[z..n] + Runs(was, now, n)))
  {
    hide Uleb, RunEnd;
  }

  lemma RunsUnfold(was: seq<byte>, now: seq<byte>, i: nat, dst: seq<byte>)
    requires |was| == |now| <= 0x3fff && i <= |now|
    requires dst + Runs(was, now, i) == Runs(was, now, 0)
    ensures var z := RunEnd(was, now, i, true);
            if z == |now| then dst == Runs(was, now, 0)
            else
              var n := RunEnd(was, now, z, false);
              n > z && dst + Uleb(z - i) + Uleb(n - z) + now[z..n] + Runs(was, now, n) == Runs(was, now, 0)
  {
    hide Uleb, RunEnd, Runs;
    RunsStep(was, now, i);
    var z := RunEnd(was, now, i, true);
    if z < |now| {
      var n := RunEnd(was, now, z, false);
      ConcatAssoc(dst, Uleb(z - i), Uleb(n - z), now[z..n], Runs(was, now, n));
    }
  }

  /** xbzrle_encode_buffer. A delta is exactly the runs and fits the buffer; an
      overflow means the runs leave less than two bytes of it free. */
  method EncodeBuffer(was: seq<byte>, now: seq<byte>, dlen: nat) returns (r: Encoded)
    requires |was| == |now| <= 0x3fff
    ensures r.Unchanged? ==> was == now
    ensures r.Delta? ==> was != now && r.bytes == Runs(was, now, 0) && |r.bytes| <= dlen
    ensures r.Overflow? ==> |Runs(was, now, 0)| + 2 > dlen
  {
    hide Uleb, RunEnd, Runs;
    RunsEmpty(was, now);
    RunsEmptyAt(was, now);
    var i: nat := 0;
    var dst: seq<byte> := [];
    while i < |now|
      invariant i <= |now| && |dst| <= dlen
      invariant dst + Runs(was, now, i) == Runs(was, now, 0)
      decreases |now| - i
    {
      if |dst| + 2 > dlen {
        return Overflow;
      }
      RunsUnfold(was, now, i, dst);
      var z := ZeroRun(was, now, i);
      if z - i == |now| {
        return Unchanged;
      }
      if z == |now| {
        break;
      }
      dst := dst + Uleb(z - i);
      if |dst| + 2 > dlen {
        return Overflow;
      }
      var n := ChangedRun(was, now, z);
      dst := dst + Uleb(n - z);
      if |dst| + (n - z) > dlen {
        return Overflow;
      }
      dst := dst + now[z..n];
      i := n;
    }
    r := if dst == [] then Unchanged else Delta(dst);
  }

  // xbzrle_decode_buffer.
  method DecodeBuffer(src: seq<byte>, page0: seq<byte>) returns (ok: bool, page: seq<byte>)
    ensures (ok, page) == Apply(src, page0, 0, true)
  {
    hide ParseTurn;
    page := page0;
    var rest, first := src, true;
    var d: nat := 0;
    while rest != []
      invariant d <= |page| == |page0|
      invariant Apply(rest, page, d, first) == Apply(src, page0, 0, true)
      decreases |rest|
    {
      var t := ParseTurn(rest, first);
      if t.Malformed? || d + t.zrun + |t.data| > |page| {
        return false, page;
      }
      d := d + t.zrun;
      page := page[..d] + t.data + page[d + |t.data|..];
      d := d + |t.data|;
      rest, first := t.tail, false;
    }
    ok := true;
  }

  // What is encoded against a page decodes over that page to the new content.
  lemma CodecRoundTrip(was: seq<byte>, now: seq<byte>)
    requires |was| == |now| <= 0x3fff
    ensures Apply(Runs(was, now, 0), was, 0, true) == (true, now)
  {
    hide Runs, Apply;
    RunsRoundTrip(was, now, 0);
    assert now[..0] + was[0..] == was;
  }

  lemma RunsEmptyAt(was: seq<byte>, now: seq<byte>)
    requires |was| == |now| <= 0x3fff
    ensures Runs(was, now, |now|) == []
  {
  }
}
