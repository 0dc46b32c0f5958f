/** `serial_print_hex_u64`: the sixteen upper-case hexadecimal digits of a
    `u64`, most significant first, written to the first serial port one
    byte at a time.  The port is modelled by the bytes sent to it.

    On an unsigned value `n & 0xF` is `n % 16` and `n >> 4` is `n / 16`;
    the model states them that way. */
module Serial {
  import opened Base

  const HEX_WIDTH: nat := 16

  function Pow16(k: nat): (p: nat)
    ensures p >= 1
  {
    if k == 0 then 1 else 16 * Pow16(k - 1)
  }

  /** The `match digit` of the encoder: '0'..'9', 'A'..'F', and the '?'
      arm for anything wider than a nibble. */
  function HexDigit(d: nat): byte
  {
    if d <= 9 then '0' as int + d
    else if d <= 15 then 'A' as int + (d - 10)
    else '?' as int
  }

  predicate IsUpperHex(b: byte)
  {
    '0' as int <= b <= '9' as int || 'A' as int <= b <= 'F' as int
  }

  /** The value of one upper-case hexadecimal digit. */
  function HexValue(b: byte): (v: nat)
    requires IsUpperHex(b)
    ensures v < 16 && HexDigit(v) == b
  {
    if b <= '9' as int then b - '0' as int else b - 'A' as int + 10
  }

  /** The nibble printed at position `i`: `(n >> 4*(15-i)) & 0xF`. */
  function Nibble(n: nat, i: nat): (d: nat)
    requires i < HEX_WIDTH
    ensures d < 16
  {
    (n / Pow16(HEX_WIDTH - 1 - i)) % 16
  }

  /** The digit the encoder prints for a nibble is never the '?' arm. */
  lemma NibbleDigit(d: nat)
    requires d < 16
    ensures IsUpperHex(HexDigit(d)) && HexDigit(d) != '?' as int
  {
  }

  /** What the encoder puts in `buf`: position `i` holds the digit of the
      `i`-th nibble, counting from the most significant. */
  function HexDigits(n: u64): (r: seq<byte>)
    ensures |r| == HEX_WIDTH
    ensures forall i :: 0 <= i < HEX_WIDTH ==> IsUpperHex(r[i]) && r[i] != '?' as int
  {
    var r := seq(HEX_WIDTH, i requires 0 <= i < HEX_WIDTH => HexDigit(Nibble(n, i)));
    assert forall i :: 0 <= i < HEX_WIDTH ==> IsUpperHex(r[i]) && r[i] != '?' as int by {
      forall i | 0 <= i < HEX_WIDTH ensures IsUpperHex(r[i]) && r[i] != '?' as int {
        NibbleDigit(Nibble(n, i));
      }
    }
    r
  }

  /** Reads hexadecimal digits, most significant first. */
  function ParseHex(s: seq<byte>): nat
    requires forall i :: 0 <= i < |s| ==> IsUpperHex(s[i])
  {
    if s == [] then 0 else ParseHex(s[..|s| - 1]) * 16 + HexValue(s[|s| - 1])
  }

  lemma MulMonoPlus(a: nat, b: nat, d: nat)
    requires a < b
    ensures a * d + d <= b * d
  {
    var k: nat := b - a - 1;
    assert b == a + k + 1;
    assert b * d == a * d + k * d + d;
  }
  /** Integer division is determined by any quotient/remainder pair. */
  lemma DivUnique(n: nat, d: nat, q: nat, r: nat)
    requires d > 0 && n == q * d + r && r < d
    ensures n / d == q
  {
    var q0 := n / d;
    var r0 := n % d;
    assert n == q0 * d + r0 && r0 < d;
    if q0 < q {
      MulMonoPlus(q0, q, d);
      assert false;
    }
    if q < q0 {
      MulMonoPlus(q, q0, d);
      assert false;
    }
  }
  /** Dividing twice is dividing by the product. */
  lemma DivDiv(n: nat, a: nat, b: nat)
    requires a > 0 && b > 0
    ensures a * b > 0
    ensures n / a / b == n / (a * b)
  {
    var q := n / a;
    var r := n % a;
    var q2 := q / b;
    var r2 := q % b;
    assert n == q * a + r && r < a;
    assert q == q2 * b + r2 && r2 < b;
    assert q * a == q2 * (a * b) + r2 * a by {
      assert q * a == (q2 * b + r2) * a;
      assert (q2 * b + r2) * a == (q2 * b) * a + r2 * a;
      assert (q2 * b) * a == q2 * (a * b);
    }
    assert r2 * a + r < a * b by {
      MulMonoPlus(r2, b, a);
      assert r2 * a + a <= b * a;
    }
    DivUnique(n, a * b, q2, r2 * a + r);
  }

  /** Shifting right by four bits more is dividing once more by 16. */
  lemma DivPow16Step(n: nat, k: nat)
    ensures n / Pow16(k) / 16 == n / Pow16(k + 1)
  {
    DivDiv(n, Pow16(k), 16);
  }

  /** Sixteen hexadecimal digits span exactly the `u64` range. */
  lemma Pow16Width()
    ensures Pow16(HEX_WIDTH) == U64_LIMIT
  {
    assert Pow16(4) == 0x1_0000;
    assert Pow16(8) == 0x1_0000_0000;
    assert Pow16(12) == 0x1_0000_0000_0000;
  }

  lemma HexValueOfDigit(d: nat)
    requires d < 16
    ensures IsUpperHex(HexDigit(d)) && HexValue(HexDigit(d)) == d
  {
  }

  /** A prefix of the digits reads back as the value shifted right by the
      bits the rest of the digits hold. */
  lemma {:induction false} PrefixReadsBack(n: u64, k: nat)
    requires k <= HEX_WIDTH
    ensures ParseHex(HexDigits(n)[..k]) == n / Pow16(HEX_WIDTH - k)
    decreases k
  {
    var ds := HexDigits(n);
    if k == 0 {
      Pow16Width();
      assert ds[..0] == [];
    } else {
      var pre := ds[..k];
      var q := n / Pow16(HEX_WIDTH - k);
      assert ParseHex(pre[..k - 1]) == q / 16 by {
        assert pre[..k - 1] == ds[..k - 1];
        PrefixReadsBack(n, k - 1);
        DivPow16Step(n, HEX_WIDTH - k);
      }
      assert HexValue(pre[k - 1]) == q % 16 by {
        assert pre[k - 1] == HexDigit(q % 16);
        HexValueOfDigit(q % 16);
      }
      assert ParseHex(pre) == ParseHex(pre[..k - 1]) * 16 + HexValue(pre[k - 1]);
    }
  }

  /** Reading the sixteen digits back gives the number: the encoding is
      lossless for every `u64`. */
  lemma HexRoundTrip(n: u64)
    ensures ParseHex(HexDigits(n)) == n
  {
    PrefixReadsBack(n, HEX_WIDTH);
    assert HexDigits(n)[..HEX_WIDTH] == HexDigits(n);
  }

  /** Different numbers print differently. */
  lemma HexInjective(m: u64, n: u64)
    requires HexDigits(m) == HexDigits(n)
    ensures m == n
  {
    HexRoundTrip(m);
    HexRoundTrip(n);
  }

  /** The buffer-filling loop: `buf` starts as sixteen '0's and is filled
      from the last position back, taking the low nibble and shifting. */
  method EncodeHex(n: u64) returns (digits: seq<byte>)
    ensures digits == HexDigits(n)
  {
    var buf := new byte[HEX_WIDTH](_ => '0' as int);
    var m: nat := n;
    var i := HEX_WIDTH;
    while i > 0
      invariant 0 <= i <= HEX_WIDTH
      invariant m == n / Pow16(HEX_WIDTH - i)
      invariant forall j :: i <= j < HEX_WIDTH ==> buf[j] == HexDigit(Nibble(n, j))
    {
      i := i - 1;
      buf[i] := HexDigit(m % 16);
      DivPow16Step(n, HEX_WIDTH - 1 - i);
      m := m / 16;
    }
    digits := buf[..];
  }

  /** The UART as the bytes sent through it. */
  class SerialPort {
    var sent: seq<byte>

    constructor ()
      ensures sent == []
    {
      sent := [];
    }

    method Send(b: byte)
      modifies this
      ensures sent == old(sent) + [b]
    {
      sent := sent + [b];
    }
  }

  method SerialPrintHexU64(port: SerialPort, n: u64)
    modifies port
    ensures port.sent == old(port.sent) + HexDigits(n)
  {
    var buf := EncodeHex(n);
    for i := 0 to |buf|
      invariant port.sent == old(port.sent) + buf[..i]
    {
      assert buf[..i + 1] == buf[..i] + [buf[i]];
      port.Send(buf[i]);
    }
    assert buf[..|buf|] == buf;
  }
}
