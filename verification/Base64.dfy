/** Standard base64 (section 4 of RFC 4648) as Go's StdEncoding reads and writes it: padded, with CR
    and LF skipped on input, and trailing pad bits not checked. */
module Base64 {
  import opened GoStrings

  type byte = b: int | 0 <= b < 256

  type sextet = v: int | 0 <= v < 64

  function EncodeChar(v: sextet): char {
    if v < 26 then ('A' as int + v) as char
    else if v < 52 then ('a' as int + (v - 26)) as char
    else if v < 62 then ('0' as int + (v - 52)) as char
    else if v == 62 then '+' else '/'
  }

  function DecodeChar(c: char): Option<sextet> {
    if 'A' <= c <= 'Z' then Some(c as int - 'A' as int)
    else if 'a' <= c <= 'z' then Some(26 + (c as int - 'a' as int))
    else if '0' <= c <= '9' then Some(52 + (c as int - '0' as int))
    else if c == '+' then Some(62)
    else if c == '/' then Some(63)
    else None
  }

  lemma CharRoundTrip(v: sextet)
    ensures DecodeChar(EncodeChar(v)) == Some(v)
  {
  }

  /** Three bytes as four characters. */
  function Quantum(a: byte, b: byte, c: byte): string {
    [EncodeChar(a / 4), EncodeChar(a % 4 * 16 + b / 16), EncodeChar(b % 16 * 4 + c / 64), EncodeChar(c % 64)]
  }

  function Encode(bytes: seq<byte>): string {
    if |bytes| == 0 then ""
    else if |bytes| == 1 then Quantum(bytes[0], 0, 0)[..2] + "=="
    else if |bytes| == 2 then Quantum(bytes[0], bytes[1], 0)[..3] + "="
    else Quantum(bytes[0], bytes[1], bytes[2]) + Encode(bytes[3..])
  }

  function First(v0: sextet, v1: sextet): byte {
    v0 * 4 + v1 / 16
  }

  function Second(v1: sextet, v2: sextet): byte {
    v1 % 16 * 16 + v2 / 4
  }

  function Third(v2: sextet, v3: sextet): byte {
    v2 % 4 * 64 + v3
  }

  function DecodeQuanta(s: string): Option<seq<byte>> {
    if s == "" then Some([])
    else if |s| < 4 then None
    else
      var v0, v1, v2, v3 := DecodeChar(s[0]), DecodeChar(s[1]), DecodeChar(s[2]), DecodeChar(s[3]);
      if v0.None? || v1.None? then None
      else if |s| == 4 && s[2] == '=' && s[3] == '=' then Some([First(v0.value, v1.value)])
      else if v2.None? then None
      else if |s| == 4 && s[3] == '=' then Some([First(v0.value, v1.value), Second(v1.value, v2.value)])
      else if v3.None? then None
      else match DecodeQuanta(s[4..])
        case None => None
        case Some(rest) =>
          Some([First(v0.value, v1.value), Second(v1.value, v2.value), Third(v2.value, v3.value)] + rest)
  }

  function DropLineBreaks(s: string): string {
    if s == "" then ""
    else (if s[0] == '\r' || s[0] == '\n' then "" else [s[0]]) + DropLineBreaks(s[1..])
  }

  function Decode(s: string): Option<seq<byte>> {
    DecodeQuanta(DropLineBreaks(s))
  }

  /** The characters encoding produces. */
  predicate IsBase64Char(c: char) {
    DecodeChar(c).Some? || c == '='
  }

  lemma {:induction false} EncodeAlphabet(bytes: seq<byte>)
    ensures forall i | 0 <= i < |Encode(bytes)| :: IsBase64Char(Encode(bytes)[i])
  {
    if |bytes| >= 3 {
      EncodeAlphabet(bytes[3..]);
    }
  }

  lemma {:induction false} DropLineBreaksIdentity(s: string)
    requires forall i | 0 <= i < |s| :: IsBase64Char(s[i])
    ensures DropLineBreaks(s) == s
  {
    if s != "" {
      assert IsBase64Char(s[0]);
      DropLineBreaksIdentity(s[1..]);
      assert s == [s[0]] + s[1..];
    }
  }

  lemma BitsRoundTrip(a: byte, b: byte, c: byte)
    ensures First(a / 4, a % 4 * 16 + b / 16) == a
    ensures Second(a % 4 * 16 + b / 16, b % 16 * 4 + c / 64) == b
    ensures Third(b % 16 * 4 + c / 64, c % 64) == c
  {
  }

  lemma QuantumRoundTrip(a: byte, b: byte, c: byte)
    ensures var q := Quantum(a, b, c);
            && DecodeChar(q[0]) == Some(a / 4)
            && DecodeChar(q[1]) == Some(a % 4 * 16 + b / 16)
            && DecodeChar(q[2]) == Some(b % 16 * 4 + c / 64)
            && DecodeChar(q[3]) == Some(c % 64)
  {
    CharRoundTrip(a / 4);
    CharRoundTrip(a % 4 * 16 + b / 16);
    CharRoundTrip(b % 16 * 4 + c / 64);
    CharRoundTrip(c % 64);
  }

  /** One full quantum in front, from the values of its characters. */
  lemma DecodeFull(c0: char, c1: char, c2: char, c3: char, rest: string)
    requires DecodeChar(c0).Some? && DecodeChar(c1).Some? && DecodeChar(c2).Some? && DecodeChar(c3).Some?
    ensures var v0, v1 := DecodeChar(c0).value, DecodeChar(c1).value;
            var v2, v3 := DecodeChar(c2).value, DecodeChar(c3).value;
            var tail := DecodeQuanta(rest);
            DecodeQuanta([c0, c1, c2, c3] + rest) ==
            if tail.None? then None else Some([First(v0, v1), Second(v1, v2), Third(v2, v3)] + tail.value)
  {
  }

  /** A last quantum of one or two bytes, from the values of its characters. */
  lemma DecodePadded(c0: char, c1: char, c2: char)
    requires DecodeChar(c0).Some? && DecodeChar(c1).Some?
    ensures DecodeQuanta([c0, c1, '=', '=']) == Some([First(DecodeChar(c0).value, DecodeChar(c1).value)])
    ensures DecodeChar(c2).Some? ==>
            DecodeQuanta([c0, c1, c2, '=']) ==
            Some([First(DecodeChar(c0).value, DecodeChar(c1).value),
                  Second(DecodeChar(c1).value, DecodeChar(c2).value)])
  {
  }

  lemma FullQuantum(a: byte, b: byte, c: byte, rest: string)
    ensures var tail := DecodeQuanta(rest);
            DecodeQuanta(Quantum(a, b, c) + rest) == if tail.None? then None else Some([a, b, c] + tail.value)
  {
    var q := Quantum(a, b, c);
    QuantumRoundTrip(a, b, c);
    BitsRoundTrip(a, b, c);
    DecodeFull(q[0], q[1], q[2], q[3], rest);
    assert q == [q[0], q[1], q[2], q[3]];
  }

  lemma OnePadded(a: byte)
    ensures DecodeQuanta(Quantum(a, 0, 0)[..2] + "==") == Some([a])
  {
  }

  lemma TwoPadded(a: byte, b: byte)
    ensures DecodeQuanta(Quantum(a, b, 0)[..3] + "=") == Some([a, b])
  {
    var q := Quantum(a, b, 0);
    QuantumRoundTrip(a, b, 0);
    BitsRoundTrip(a, b, 0);
    DecodePadded(q[0], q[1], q[2]);
    assert q[..3] + "=" == [q[0], q[1], q[2], '='];
  }

  lemma ShortRoundTrip(bytes: seq<byte>)
    requires |bytes| < 3
    ensures DecodeQuanta(Encode(bytes)) == Some(bytes)
  {
    if |bytes| == 1 {
      OnePadded(bytes[0]);
      assert bytes == [bytes[0]];
    } else if |bytes| == 2 {
      TwoPadded(bytes[0], bytes[1]);
      assert bytes == [bytes[0], bytes[1]];
    }
  }

  lemma {:induction false} QuantaRoundTrip(bytes: seq<byte>)
    ensures DecodeQuanta(Encode(bytes)) == Some(bytes)
  {
    if |bytes| < 3 {
      ShortRoundTrip(bytes);
    } else {
      QuantaRoundTrip(bytes[3..]);
      FullQuantum(bytes[0], bytes[1], bytes[2], Encode(bytes[3..]));
      assert bytes == [bytes[0], bytes[1], bytes[2]] + bytes[3..];
    }
  }

  /** The examples of section 10 of RFC 4648, and one with the last two characters of the alphabet. */
  lemma Examples()
    ensures Encode([]) == "" && Encode([102]) == "Zg==" && Encode([102, 111]) == "Zm8="
    ensures Encode([102, 111, 111]) == "Zm9v" && Encode([102, 111, 111, 98]) == "Zm9vYg=="
    ensures Encode([251, 255, 191]) == "+/+/"
  {
    assert [102, 111, 111, 98][3..] == [98];
  }

  /** Line breaks count for nothing, wherever they stand. */
  lemma LineBreaksSkipped(s: string, t: string)
    ensures Decode(s + "\n" + t) == Decode(s + "\r" + t) == Decode(s + t)
  {
    DropConcat(s, "\n" + t);
    DropConcat(s, "\r" + t);
    DropConcat(s, t);
    assert s + "\n" + t == s + ("\n" + t) && s + "\r" + t == s + ("\r" + t);
    assert ("\n" + t)[1..] == t && ("\r" + t)[1..] == t;
    assert "" + DropLineBreaks(t) == DropLineBreaks(t);
  }

  lemma {:induction false} DropConcat(s: string, t: string)
    ensures DropLineBreaks(s + t) == DropLineBreaks(s) + DropLineBreaks(t)
  {
    if s == "" {
      assert s + t == t;
    } else {
      assert (s + t)[1..] == s[1..] + t;
      DropConcat(s[1..], t);
    }
  }

  /** Decoding undoes encoding, for every byte string. */
  lemma RoundTrip(bytes: seq<byte>)
    ensures Decode(Encode(bytes)) == Some(bytes)
  {
    EncodeAlphabet(bytes);
    DropLineBreaksIdentity(Encode(bytes));
    QuantaRoundTrip(bytes);
  }
}
