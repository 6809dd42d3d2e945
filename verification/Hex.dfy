/** Hexadecimal text in packets. */
module Hex {
  import opened Bytes

  predicate AllHex(d: seq<Byte>) { forall k :: 0 <= k < |d| ==> HexNibble(d[k]) >= 0 }

  /** Two digits for each byte. */
  function HexText(data: seq<Byte>): (h: seq<Byte>)
    ensures |h| == 2 * |data|
  {
    seq(2 * |data|, k requires 0 <= k < 2 * |data| =>
      if k % 2 == 0 then HexDigit(data[k / 2] / 16) else HexDigit(data[k / 2] % 16))
  }

  /** The bytes pairs of digits denote. */
  function Unhexed(h: seq<Byte>): (data: seq<Byte>)
    requires |h| % 2 == 0 && AllHex(h)
    ensures |data| == |h| / 2
  {
    seq(|h| / 2, i requires 0 <= i < |h| / 2 => 16 * HexNibble(h[2 * i]) + HexNibble(h[2 * i + 1]))
  }

  lemma {:induction false} HexAt(data: seq<Byte>, i: nat)
    requires i < |data|
    ensures HexNibble(HexText(data)[2 * i]) == data[i] / 16 && HexNibble(HexText(data)[2 * i + 1]) == data[i] % 16
  {
    assert (2 * i) / 2 == i && (2 * i + 1) / 2 == i;
  }

  /** Hexadecimal text reads back. */
  lemma {:induction false} UnhexHex(data: seq<Byte>)
    ensures AllHex(HexText(data)) && Unhexed(HexText(data)) == data
  {
    var h := HexText(data);
    forall k | 0 <= k < |h| ensures HexNibble(h[k]) >= 0 { HexAt(data, k / 2); }
    forall i | 0 <= i < |data| ensures Unhexed(h)[i] == data[i] { HexAt(data, i); }
  }

  lemma {:induction false} HexJoin(a: seq<Byte>, b: seq<Byte>)
    ensures HexText(a) + HexText(b) == HexText(a + b)
  {
    forall k | 0 <= k < 2 * |a + b| ensures (HexText(a) + HexText(b))[k] == HexText(a + b)[k] {
      if k >= 2 * |a| { assert (k - 2 * |a|) / 2 == k / 2 - |a| && (k - 2 * |a|) % 2 == k % 2; }
    }
  }

  lemma {:induction false} UnhexJoin(a: seq<Byte>, b: seq<Byte>)
    requires |a| % 2 == 0 && |b| % 2 == 0 && AllHex(a) && AllHex(b)
    ensures AllHex(a + b) && Unhexed(a + b) == Unhexed(a) + Unhexed(b)
  {
    var u, v := Unhexed(a + b), Unhexed(a) + Unhexed(b);
    forall i | 0 <= i < |u| ensures u[i] == v[i] {
      if i >= |a| / 2 {
        assert (a + b)[2 * i] == b[2 * (i - |a| / 2)] && (a + b)[2 * i + 1] == b[2 * (i - |a| / 2) + 1];
      }
    }
  }

  lemma {:induction false} HexSlice(h: seq<Byte>, a: nat, b: nat, end: nat)
    requires a <= b <= end <= |h|
    ensures AllHex(h[..end]) ==> AllHex(h[a..b])
    ensures AllHex(h) ==> AllHex(h[..end])
  {
    assert forall k :: 0 <= k < b - a ==> h[a..b][k] == h[..end][a + k];
  }

  method BytesToHex(data: seq<Byte>) returns (out: seq<Byte>)
    ensures out == HexText(data)
  {
    var text := new Byte[2 * |data|];
    var i := 0;
    while i < |data|
      invariant i <= |data| && text[..2 * i] == HexText(data)[..2 * i]
    {
      assert (2 * i) / 2 == i && (2 * i + 1) / 2 == i;
      text[i * 2] := HexDigit(data[i] / 16);
      text[i * 2 + 1] := HexDigit(data[i] % 16);
      i := i + 1;
    }
    assert text[..] == text[..2 * i];
    return text[..];
  }

  method HexToBytes(hex: seq<Byte>, size: nat) returns (r: Option<seq<Byte>>)
    ensures r == if |hex| == 2 * size && AllHex(hex) then Some(Unhexed(hex)) else None
  {
    if |hex| != size * 2 { return None; }
    var out: seq<Byte> := [];
    var i := 0;
    while i < size
      invariant i <= size == |hex| / 2 && |out| == i && AllHex(hex[..2 * i])
      invariant forall k :: 0 <= k < i ==> out[k] == 16 * HexNibble(hex[2 * k]) + HexNibble(hex[2 * k + 1])
    {
      var hi, lo := HexNibble(hex[i * 2]), HexNibble(hex[i * 2 + 1]);
      if hi < 0 || lo < 0 { return None; }
      out, i := out + [16 * hi + lo], i + 1;
      assert hex[..2 * i] == hex[..2 * i - 2] + [hex[2 * i - 2], hex[2 * i - 1]];
    }
    assert hex[..2 * i] == hex && out == Unhexed(hex);
    return Some(out);
  }
}
