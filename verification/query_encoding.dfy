/**
 The query encoder used to build search requests: alphanumerics and `-` are
 copied, a space becomes `+`, and every other byte becomes `%XX` with two
 upper-case hexadecimal digits of its unsigned value.

 `DecodeQuery` is the inverse the model uses to show that no two queries
 share an encoding.
 */
module QueryEncoding {
  import opened Text

  /** Bytes the encoder copies unchanged. */
  predicate PassesThrough(c: char) { IsAlnum(c) || c == '-' }

  /** Bytes that may appear in an encoded query. */
  predicate IsEncodedChar(c: char) { PassesThrough(c) || c == '+' || c == '%' }

  predicate IsUpperHexDigit(c: char) { IsDigit(c) || 'A' <= c <= 'F' }

  function HexValue(c: char): (n: nat)
    requires IsUpperHexDigit(c)
    ensures n < 16
  {
    if IsDigit(c) then DigitValue(c) else c as int - 'A' as int + 10
  }

  function HexDigit(n: nat): (c: char)
    requires n < 16
    ensures IsUpperHexDigit(c) && HexValue(c) == n
  {
    if n < 10 then DigitChar(n) else (n - 10 + 'A' as int) as char
  }

  /** The value the `unsigned char` cast gives a byte. */
  function ByteValue(c: char): (b: nat)
    ensures b < 256
    ensures c as int < 256 ==> b == c as int
  {
    c as int % 256
  }

  /** Bytes that become a `%XX` escape. */
  predicate IsEscaped(c: char) { !PassesThrough(c) && c != ' ' }

  /** The encoding of one byte. */
  function EncodeChar(c: char): (r: string)
    ensures PassesThrough(c) ==> r == [c]
    ensures c == ' ' ==> r == "+"
    ensures IsEscaped(c) ==>
      && |r| == 3 && r[0] == '%'
      && IsUpperHexDigit(r[1]) && IsUpperHexDigit(r[2])
      && HexValue(r[1]) * 16 + HexValue(r[2]) == ByteValue(c)
  {
    if PassesThrough(c) then [c]
    else if c == ' ' then "+"
    else
      var b := ByteValue(c);
      ['%', HexDigit(b / 16), HexDigit(b % 16)]
  }

  /** Number of bytes of `q` that need a `%XX` escape. */
  function EscapedCount(q: string): nat
  {
    if |q| == 0 then 0 else (if IsEscaped(q[0]) then 1 else 0) + EscapedCount(q[1..])
  }

  /** `encode_query`: each byte encoded on its own, in order. */
  function EncodeQuery(q: string): (r: string)
    ensures |r| == |q| + 2 * EscapedCount(q)
    ensures forall i :: 0 <= i < |r| ==> IsEncodedChar(r[i])
  {
    if |q| == 0 then []
    else
      var head := EncodeChar(q[0]);
      var tail := EncodeQuery(q[1..]);
      assert forall i :: 0 <= i < |head| ==> IsEncodedChar(head[i]);
      head + tail
  }

  /** The encoding maps each byte independently: it distributes over concatenation. */
  lemma {:induction false} EncodeQueryConcat(a: string, b: string)
    ensures EncodeQuery(a + b) == EncodeQuery(a) + EncodeQuery(b)
    decreases |a|
  {
    if |a| == 0 {
      assert a + b == b;
    } else {
      assert (a + b)[0] == a[0];
      assert (a + b)[1..] == a[1..] + b;
      EncodeQueryConcat(a[1..], b);
    }
  }

  function Prepend(c: char, rest: Option<string>): Option<string>
  {
    match rest
    case None => None
    case Some(s) => Some([c] + s)
  }

  /** Reads an encoded query back; `None` when `e` is not an encoding. */
  function DecodeQuery(e: string): Option<string>
    decreases |e|
  {
    if |e| == 0 then Some([])
    else if e[0] == '+' then Prepend(' ', DecodeQuery(e[1..]))
    else if e[0] == '%' then
      if |e| >= 3 && IsUpperHexDigit(e[1]) && IsUpperHexDigit(e[2]) then
        Prepend((HexValue(e[1]) * 16 + HexValue(e[2])) as char, DecodeQuery(e[3..]))
      else None
    else if PassesThrough(e[0]) then Prepend(e[0], DecodeQuery(e[1..]))
    else None
  }

  /** Decoding undoes encoding for every byte string. */
  lemma {:induction false} DecodeEncode(q: string)
    requires IsByteString(q)
    ensures DecodeQuery(EncodeQuery(q)) == Some(q)
    decreases |q|
  {
    if |q| > 0 {
      var c := q[0];
      var head := EncodeChar(c);
      var tail := EncodeQuery(q[1..]);
      var e := head + tail;
      assert IsByteString(q[1..]);
      DecodeEncode(q[1..]);
      assert q == [c] + q[1..];
      if PassesThrough(c) {
        assert e[0] == c && e[1..] == tail;
      } else if c == ' ' {
        assert e[0] == '+' && e[1..] == tail;
      } else {
        assert e[0] == '%' && e[1] == head[1] && e[2] == head[2] && e[3..] == tail;
        assert (HexValue(e[1]) * 16 + HexValue(e[2])) as char == c;
      }
    }
  }

  /** Two different queries never share an encoding, since `+` and `%` are escaped themselves. */
  lemma EncodeQueryInjective(a: string, b: string)
    requires IsByteString(a) && IsByteString(b)
    requires EncodeQuery(a) == EncodeQuery(b)
    ensures a == b
  {
    DecodeEncode(a);
    DecodeEncode(b);
  }

  /** A query made only of pass-through bytes is its own encoding. */
  lemma {:induction false} EncodePlain(s: string)
    requires forall i :: 0 <= i < |s| ==> PassesThrough(s[i])
    ensures EncodeQuery(s) == s
    decreases |s|
  {
    if |s| > 0 {
      EncodePlain(s[1..]);
      assert s == [s[0]] + s[1..];
    }
  }
}
