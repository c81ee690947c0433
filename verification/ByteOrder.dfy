/** Unsigned integers of a fixed width as bytes, in either byte order of the machine. */
module ByteOrder {
  type Byte = b: nat | b < 256

  datatype Order = Little | Big

  /** The values below 256 to the given power fit a width. */
  function Limit(width: nat): (n: nat)
    ensures n >= 1
  {
    if width == 0 then 1 else 256 * Limit(width - 1)
  }

  function Encoded(order: Order, n: nat, width: nat): (bytes: seq<Byte>)
    ensures |bytes| == width
  {
    if width == 0 then []
    else if order.Little? then [n % 256] + Encoded(order, n / 256, width - 1)
    else Encoded(order, n / 256, width - 1) + [n % 256]
  }

  function Decoded(order: Order, bytes: seq<Byte>): (n: nat)
  {
    if bytes == [] then 0
    else if order.Little? then bytes[0] + 256 * Decoded(order, bytes[1..])
    else 256 * Decoded(order, bytes[..|bytes| - 1]) + bytes[|bytes| - 1]
  }

  lemma Limits()
    ensures Limit(1) == 0x100 && Limit(2) == 0x1_0000
    ensures Limit(4) == 0x1_0000_0000 && Limit(8) == 0x1_0000_0000_0000_0000
  {
    assert Limit(3) == 0x100_0000 && Limit(5) == 0x100_0000_0000;
    assert Limit(6) == 0x1_0000_0000_0000 && Limit(7) == 0x100_0000_0000_0000;
  }

  lemma Multiple(d: nat, x: int)
    ensures x >= 1 ==> d * x >= d
    ensures x <= -1 ==> d * x + d <= 0
  {
  }

  lemma Quotient(n: nat, d: nat, q: nat)
    requires d > 0 && d * q <= n < d * q + d
    ensures n / d == q
  {
    var p := n / d;
    assert d * p <= n < d * p + d;
    assert d * (p - q) == d * p - d * q;
    Multiple(d, p - q);
  }

  lemma DivideTwice(n: nat, m: nat)
    requires m > 0
    ensures n / 256 / m == n / (256 * m)
  {
    var q := n / 256 / m;
    assert m * q <= n / 256 < m * q + m;
    assert (256 * m) * q <= n < (256 * m) * q + 256 * m;
    Quotient(n, 256 * m, q);
  }

  /** The byte of weight 256 to the k stands at position k, counted from the front in little-endian order and from
      the back in big-endian order. */
  lemma {:induction false} ByteAt(order: Order, n: nat, width: nat, k: nat)
    requires k < width
    ensures Encoded(order, n, width)[if order.Little? then k else width - 1 - k] == n / Limit(k) % 256
  {
    if k > 0 {
      ByteAt(order, n / 256, width - 1, k - 1);
      DivideTwice(n, Limit(k - 1));
    }
  }

  lemma {:induction false} DecodedEncoded(order: Order, n: nat, width: nat)
    requires n < Limit(width)
    ensures Decoded(order, Encoded(order, n, width)) == n
  {
    if width > 0 {
      var e := Encoded(order, n, width);
      DecodedEncoded(order, n / 256, width - 1);
      if order.Little? {
        assert e[1..] == Encoded(order, n / 256, width - 1);
      } else {
        assert e[..|e| - 1] == Encoded(order, n / 256, width - 1);
      }
    }
  }

  lemma {:induction false} EncodedDecoded(order: Order, bytes: seq<Byte>)
    ensures Decoded(order, bytes) < Limit(|bytes|)
    ensures Encoded(order, Decoded(order, bytes), |bytes|) == bytes
  {
    if bytes != [] {
      var n := Decoded(order, bytes);
      if order.Little? {
        var rest := bytes[1..];
        EncodedDecoded(order, rest);
        assert n / 256 == Decoded(order, rest) && n % 256 == bytes[0];
        assert bytes == [bytes[0]] + rest;
      } else {
        var rest := bytes[..|bytes| - 1];
        EncodedDecoded(order, rest);
        assert n / 256 == Decoded(order, rest) && n % 256 == bytes[|bytes| - 1];
        assert bytes == rest + [bytes[|bytes| - 1]];
      }
    }
  }
}
