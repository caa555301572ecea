/** Base64 with the standard alphabet and `=` padding (section 4 of
    RFC 4648), over bytes: the encoder the download link uses, and a strict
    decoder that accepts exactly the encoder's outputs. */
module Base64 {

  type byte = x: int | 0 <= x < 256

  datatype Option<T> = None | Some(value: T)

  const Upper: string := "ABCDEFGHIJKLMNOPQRSTUVWXYZ"
  const Lower: string := "abcdefghijklmnopqrstuvwxyz"
  const Digits: string := "0123456789"

  /** The 64 characters of the standard alphabet, in value order. */
  const Alphabet: string := Upper + Lower + Digits + "+/"

  const Pad: char := '='

  // ---------------------------------------------------------------- characters

  /** The character that encodes a 6-bit value: the value-th character of
      `Alphabet` (lemma `AlphabetSpelled`). */
  function CharOf(v: int): char
    requires 0 <= v < 64
  {
    if v < 26 then ('A' as int + v) as char
    else if v < 52 then ('a' as int + v - 26) as char
    else if v < 62 then ('0' as int + v - 52) as char
    else if v == 62 then '+'
    else '/'
  }

  /** The 6-bit value a character encodes, if it is in the alphabet. */
  function ValueOf(c: char): (r: Option<int>)
    ensures r.Some? ==> 0 <= r.value < 64
  {
    if 'A' <= c <= 'Z' then Some(c as int - 'A' as int)
    else if 'a' <= c <= 'z' then Some(c as int - 'a' as int + 26)
    else if '0' <= c <= '9' then Some(c as int - '0' as int + 52)
    else if c == '+' then Some(62)
    else if c == '/' then Some(63)
    else None
  }

  /** `ValueOf` inverts `CharOf` on the 64 values; no value is encoded by `=`. */
  lemma CharValue(v: int)
    requires 0 <= v < 64
    ensures ValueOf(CharOf(v)) == Some(v) && CharOf(v) != Pad
  {
  }

  /** `CharOf` inverts `ValueOf` on the characters it accepts. */
  lemma ValueChar(c: char)
    requires ValueOf(c).Some?
    ensures CharOf(ValueOf(c).value) == c
  {
  }

  /** `chars` runs through `count` consecutive code points from `first`. */
  predicate Consecutive(chars: string, first: char, count: nat) {
    |chars| == count && first as int + count <= 128 &&
    forall v :: 0 <= v < count ==> chars[v] == (first as int + v) as char
  }

  lemma UpperConsecutive() ensures Consecutive(Upper, 'A', 26) {}
  lemma LowerConsecutive() ensures Consecutive(Lower, 'a', 26) {}
  lemma DigitsConsecutive() ensures Consecutive(Digits, '0', 10) {}

  /** A run of consecutive code points holds exactly the characters in its range. */
  lemma ConsecutiveMembers(chars: string, first: char, count: nat)
    requires Consecutive(chars, first, count)
    ensures forall c :: c in chars <==> first as int <= c as int < first as int + count
  {
    forall c | first as int <= c as int < first as int + count ensures c in chars {
      assert chars[c as int - first as int] == c;
    }
  }

  /** `CharOf` spells out `Alphabet`. */
  lemma AlphabetSpelled()
    ensures |Alphabet| == 64 && forall v :: 0 <= v < 64 ==> Alphabet[v] == CharOf(v)
  {
    UpperConsecutive();
    LowerConsecutive();
    DigitsConsecutive();
    forall v | 0 <= v < 64 ensures Alphabet[v] == CharOf(v) {
      if v < 26 {
        assert Alphabet[v] == Upper[v];
      } else if v < 52 {
        assert Alphabet[v] == Lower[v - 26];
      } else if v < 62 {
        assert Alphabet[v] == Digits[v - 52];
      }
    }
  }

  /** `ValueOf` accepts exactly the characters of `Alphabet`. */
  lemma AlphabetValues()
    ensures forall c :: c in Alphabet <==> ValueOf(c).Some?
    ensures Pad !in Alphabet
  {
    UpperConsecutive();
    LowerConsecutive();
    DigitsConsecutive();
    ConsecutiveMembers(Upper, 'A', 26);
    ConsecutiveMembers(Lower, 'a', 26);
    ConsecutiveMembers(Digits, '0', 10);
    forall c ensures c in Alphabet <==> c in Upper || c in Lower || c in Digits || c == '+' || c == '/' {
    }
  }

  /** All values are 6-bit. */
  predicate Sextets(vs: seq<int>) {
    forall i :: 0 <= i < |vs| ==> 0 <= vs[i] < 64
  }

  /** The characters of a sequence of 6-bit values. */
  function Chars(vs: seq<int>): (s: string)
    requires Sextets(vs)
    ensures |s| == |vs| && forall i :: 0 <= i < |vs| ==> s[i] == CharOf(vs[i])
  {
    if vs == [] then [] else [CharOf(vs[0])] + Chars(vs[1..])
  }

  /** The 6-bit values of a string, if every character is in the alphabet. */
  function Values(s: string): (r: Option<seq<int>>)
    ensures r.Some? <==> forall i :: 0 <= i < |s| ==> ValueOf(s[i]).Some?
    ensures r.Some? ==> (|r.value| == |s| && Sextets(r.value) &&
      forall i :: 0 <= i < |s| ==> r.value[i] == ValueOf(s[i]).value)
  {
    if s == [] then Some([])
    else
      var rest := Values(s[1..]);
      assert forall i :: 0 < i < |s| ==> s[i] == s[1..][i - 1];
      if ValueOf(s[0]).Some? && rest.Some? then Some([ValueOf(s[0]).value] + rest.value) else None
  }

  lemma ValuesOfChars(vs: seq<int>)
    requires Sextets(vs)
    ensures Values(Chars(vs)) == Some(vs)
  {
    var s := Chars(vs);
    forall i | 0 <= i < |vs| ensures ValueOf(s[i]) == Some(vs[i]) {
      CharValue(vs[i]);
    }
    assert Values(s).value == vs;
  }

  lemma CharsOfValues(s: string)
    requires Values(s).Some?
    ensures Chars(Values(s).value) == s
  {
    forall i | 0 <= i < |s| ensures Chars(Values(s).value)[i] == s[i] {
      ValueChar(s[i]);
    }
  }

  // ---------------------------------------------------------------- regrouping bits

  /** Three bytes (24 bits) as four 6-bit values, high bits first. */
  function Split3(b0: byte, b1: byte, b2: byte): (vs: seq<int>)
    ensures |vs| == 4 && Sextets(vs)
  {
    [b0 / 4, (b0 % 4) * 16 + b1 / 16, (b1 % 16) * 4 + b2 / 64, b2 % 64]
  }

  /** Two bytes as three 6-bit values, the last zero-filled. */
  function Split2(b0: byte, b1: byte): (vs: seq<int>)
    ensures |vs| == 3 && Sextets(vs)
  {
    [b0 / 4, (b0 % 4) * 16 + b1 / 16, (b1 % 16) * 4]
  }

  /** One byte as two 6-bit values, the last zero-filled. */
  function Split1(b0: byte): (vs: seq<int>)
    ensures |vs| == 2 && Sextets(vs)
  {
    [b0 / 4, (b0 % 4) * 16]
  }

  /** Four 6-bit values as three bytes. */
  function Join3(vs: seq<int>): (bs: seq<byte>)
    requires |vs| == 4 && Sextets(vs)
  {
    [vs[0] * 4 + vs[1] / 16, (vs[1] % 16) * 16 + vs[2] / 4, (vs[2] % 4) * 64 + vs[3]]
  }

  /** Three 6-bit values as two bytes; the low 2 bits are padding. */
  function Join2(vs: seq<int>): (bs: seq<byte>)
    requires |vs| == 3 && Sextets(vs)
  {
    [vs[0] * 4 + vs[1] / 16, (vs[1] % 16) * 16 + vs[2] / 4]
  }

  /** Two 6-bit values as one byte; the low 4 bits are padding. */
  function Join1(vs: seq<int>): (bs: seq<byte>)
    requires |vs| == 2 && Sextets(vs)
  {
    [vs[0] * 4 + vs[1] / 16]
  }

  lemma Split3Join3(b0: byte, b1: byte, b2: byte)
    ensures Join3(Split3(b0, b1, b2)) == [b0, b1, b2]
  {
  }

  /** Dividing by 4, 16 or 64 undoes `hi * d + lo` for a digit `lo`. */
  lemma DivMod(hi: int, lo: int, d: int)
    requires (d == 4 || d == 16 || d == 64) && 0 <= lo < d
    ensures (hi * d + lo) / d == hi && (hi * d + lo) % d == lo
  {
    if d == 4 {
      assert (hi * 4 + lo) / 4 == hi;
    } else if d == 16 {
      assert (hi * 16 + lo) / 16 == hi;
    } else {
      assert (hi * 64 + lo) / 64 == hi;
    }
  }

  lemma Join3Split3(vs: seq<int>)
    requires |vs| == 4 && Sextets(vs)
    ensures var bs := Join3(vs); Split3(bs[0], bs[1], bs[2]) == vs
  {
    DivMod(vs[0], vs[1] / 16, 4);
    DivMod(vs[1] % 16, vs[2] / 4, 16);
    DivMod(vs[2] % 4, vs[3], 64);
  }

  lemma Split2Join2(b0: byte, b1: byte)
    ensures Split2(b0, b1)[2] % 4 == 0 && Join2(Split2(b0, b1)) == [b0, b1]
  {
  }

  lemma Join2Split2(vs: seq<int>)
    requires |vs| == 3 && Sextets(vs) && vs[2] % 4 == 0
    ensures var bs := Join2(vs); Split2(bs[0], bs[1]) == vs
  {
  }

  lemma Split1Join1(b0: byte)
    ensures Split1(b0)[1] % 16 == 0 && Join1(Split1(b0)) == [b0]
  {
  }

  lemma Join1Split1(vs: seq<int>)
    requires |vs| == 2 && Sextets(vs) && vs[1] % 16 == 0
    ensures Split1(Join1(vs)[0]) == vs
  {
  }

  /** The 6-bit values of a byte string: four per group of three bytes, and
      two or three, zero-filled, for a final group of one or two bytes. */
  function Pack(bs: seq<byte>): (vs: seq<int>)
    ensures Sextets(vs) && |vs| == |bs| + (|bs| + 2) / 3
  {
    if |bs| == 0 then []
    else if |bs| == 1 then Split1(bs[0])
    else if |bs| == 2 then Split2(bs[0], bs[1])
    else
      var head, tail := Split3(bs[0], bs[1], bs[2]), Pack(bs[3..]);
      assert forall i :: 4 <= i < |head + tail| ==> (head + tail)[i] == tail[i - 4];
      head + tail
  }

  /** The bytes of a sequence of 6-bit values, if its length can end a
      group (not one more than a multiple of four) and the zero-filled bits
      of a short final group are zero. */
  function Unpack(vs: seq<int>): Option<seq<byte>>
    requires Sextets(vs)
    decreases |vs|
  {
    if |vs| == 0 then Some([])
    else if |vs| == 1 then None
    else if |vs| == 2 then (if vs[1] % 16 == 0 then Some(Join1(vs)) else None)
    else if |vs| == 3 then (if vs[2] % 4 == 0 then Some(Join2(vs)) else None)
    else
      var rest := Unpack(vs[4..]);
      if rest.Some? then Some(Join3(vs[..4]) + rest.value) else None
  }

  /** Regrouping bits loses nothing: `Unpack` inverts `Pack`. */
  lemma {:induction false} UnpackPack(bs: seq<byte>)
    ensures Unpack(Pack(bs)) == Some(bs)
  {
    if |bs| == 1 {
      Split1Join1(bs[0]);
      assert bs == [bs[0]];
    } else if |bs| == 2 {
      Split2Join2(bs[0], bs[1]);
      assert bs == [bs[0], bs[1]];
    } else if |bs| >= 3 {
      var head, tail := Split3(bs[0], bs[1], bs[2]), Pack(bs[3..]);
      var vs := head + tail;
      assert vs[..4] == head && vs[4..] == tail;
      UnpackPack(bs[3..]);
      Split3Join3(bs[0], bs[1], bs[2]);
      assert bs == [bs[0], bs[1], bs[2]] + bs[3..];
    }
  }

  /** Every sequence `Unpack` accepts is the packing of what it unpacks to. */
  lemma {:induction false} PackUnpack(vs: seq<int>)
    requires Sextets(vs) && Unpack(vs).Some?
    ensures Pack(Unpack(vs).value) == vs
  {
    var bs := Unpack(vs).value;
    if |vs| == 2 {
      Join1Split1(vs);
    } else if |vs| == 3 {
      Join2Split2(vs);
    } else if |vs| >= 4 {
      var rest := Unpack(vs[4..]).value;
      PackUnpack(vs[4..]);
      Join3Split3(vs[..4]);
      assert bs[3..] == rest;
      assert Pack(bs) == Split3(bs[0], bs[1], bs[2]) + Pack(bs[3..]);
      assert vs == vs[..4] + vs[4..];
    }
  }

  // ---------------------------------------------------------------- encoding and decoding

  /** The `=` characters that complete the last group of four. */
  function Padding(n: nat): (p: string)
    ensures |p| <= 2 && forall i :: 0 <= i < |p| ==> p[i] == Pad
  {
    if n % 3 == 1 then [Pad, Pad] else if n % 3 == 2 then [Pad] else []
  }

  /** `base64.b64encode`: each group of three bytes becomes four characters;
      a final group of one or two bytes becomes two or three characters of
      zero-filled bits, padded with `=` to four. */
  function Encode(bs: seq<byte>): (s: string)
    ensures |s| == 4 * ((|bs| + 2) / 3)
  {
    Chars(Pack(bs)) + Padding(|bs|)
  }

  /** The number of `=` at the end of a string, counting at most two. */
  function PadCount(s: string): (p: nat)
    ensures p <= 2 && p <= |s|
  {
    if |s| >= 1 && s[|s| - 1] == Pad then
      (if |s| >= 2 && s[|s| - 2] == Pad then 2 else 1)
    else 0
  }

  /** Strict decoding: the length is a multiple of four, at most two `=`
      end the string, every other character is in the alphabet, and the
      zero-filled bits of a short final group are zero. */
  function Decode(s: string): Option<seq<byte>>
  {
    if |s| % 4 != 0 then None
    else
      var vs := Values(s[..|s| - PadCount(s)]);
      if vs.Some? then Unpack(vs.value) else None
  }

  // ---------------------------------------------------------------- properties

  /** Every character of the output is one `ValueOf` accepts, except `=`
      in the last two positions. */
  lemma EncodeChars(bs: seq<byte>)
    ensures forall i :: 0 <= i < |Encode(bs)| ==>
      ValueOf(Encode(bs)[i]).Some? || (Encode(bs)[i] == Pad && i >= |Encode(bs)| - 2)
  {
    var vs := Pack(bs);
    var s, body := Encode(bs), Chars(vs);
    forall i | 0 <= i < |s| ensures ValueOf(s[i]).Some? || (s[i] == Pad && i >= |s| - 2) {
      if i < |body| {
        CharValue(vs[i]);
      }
    }
  }

  /** The output holds only characters of the standard alphabet, except for
      `=` in the last two positions; so at most two `=`, and no other character. */
  lemma EncodeAlphabet(bs: seq<byte>)
    ensures forall i :: 0 <= i < |Encode(bs)| ==>
      Encode(bs)[i] in Alphabet || (Encode(bs)[i] == Pad && i >= |Encode(bs)| - 2)
  {
    EncodeChars(bs);
    AlphabetValues();
  }

  /** No character of `Chars` is `=`. */
  lemma CharsNoPad(vs: seq<int>, i: int)
    requires Sextets(vs) && 0 <= i < |vs|
    ensures Chars(vs)[i] != Pad
  {
    CharValue(vs[i]);
  }

  /** Padding: the last character is `=` exactly when the byte count is not a
      multiple of three, and the one before it exactly when one byte is left over. */
  lemma EncodePadding(bs: seq<byte>)
    requires bs != []
    ensures var s := Encode(bs);
      && (s[|s| - 1] == Pad <==> |bs| % 3 != 0)
      && (s[|s| - 2] == Pad <==> |bs| % 3 == 1)
  {
    var vs := Pack(bs);
    var s, body, pad := Encode(bs), Chars(vs), Padding(|bs|);
    assert |body| >= 2;
    if |pad| == 0 {
      CharsNoPad(vs, |vs| - 1);
      CharsNoPad(vs, |vs| - 2);
    } else if |pad| == 1 {
      CharsNoPad(vs, |vs| - 1);
    }
  }

  // The first four test vectors of section 10 of RFC 4648: the empty
  // string, "f", "fo" and "foo" as bytes, one for each padding length.

  lemma EncodeEmpty()
    ensures Encode([]) == ""
  {
  }

  lemma EncodeF()
    ensures Encode([102]) == "Zg=="
  {
    assert Pack([102]) == [25, 32];
    assert Chars([25, 32]) == "Zg";
  }

  lemma EncodeFo()
    ensures Encode([102, 111]) == "Zm8="
  {
    assert Pack([102, 111]) == [25, 38, 60];
    assert Chars([25, 38, 60]) == "Zm8";
  }

  lemma EncodeFoo()
    ensures Encode([102, 111, 111]) == "Zm9v"
  {
    assert Pack([102, 111, 111]) == [25, 38, 61, 47];
    assert Chars([25, 38, 61, 47]) == "Zm9v";
  }

  /** The decoder counts exactly the padding the encoder wrote. */
  lemma PadCountEncode(bs: seq<byte>)
    ensures PadCount(Encode(bs)) == |Padding(|bs|)|
  {
    var vs := Pack(bs);
    var s, body, pad := Encode(bs), Chars(vs), Padding(|bs|);
    if bs != [] {
      if |pad| == 0 {
        CharsNoPad(vs, |vs| - 1);
      } else if |pad| == 1 {
        CharsNoPad(vs, |vs| - 1);
      }
    }
  }

  /** The last `PadCount(s)` characters are `=`. */
  lemma PadCountPads(s: string)
    ensures forall i :: |s| - PadCount(s) <= i < |s| ==> s[i] == Pad
  {
  }

  /** What decoding does, with the intermediate results named. */
  lemma DecodeSteps(s: string, body: string, vs: seq<int>, bs: seq<byte>)
    requires |s| % 4 == 0 && body == s[..|s| - PadCount(s)]
    requires Values(body) == Some(vs) && Unpack(vs) == Some(bs)
    ensures Decode(s) == Some(bs)
  {
  }

  /** What encoding does, with the intermediate results named. */
  lemma EncodeSteps(bs: seq<byte>, body: string, pad: string)
    requires body == Chars(Pack(bs)) && pad == Padding(|bs|)
    ensures Encode(bs) == body + pad && (body + pad)[..|body|] == body
  {
  }

  lemma FourTimes(k: int)
    ensures (4 * k) % 4 == 0
  {
  }

  /** Round trip: decoding an encoding gives back the bytes. */
  lemma DecodeEncode(bs: seq<byte>)
    ensures Decode(Encode(bs)) == Some(bs)
  {
    var vs := Pack(bs);
    var body, pad := Chars(vs), Padding(|bs|);
    EncodeSteps(bs, body, pad);
    PadCountEncode(bs);
    ValuesOfChars(vs);
    UnpackPack(bs);
    FourTimes((|bs| + 2) / 3);
    DecodeSteps(Encode(bs), body, vs, bs);
  }

  /** Among the lengths of a whole number of groups, the packed length of
      `n` bytes fixes how much padding follows it. */
  lemma PaddingFits(n: nat, p: nat)
    requires p <= 2 && (n + (n + 2) / 3 + p) % 4 == 0
    ensures |Padding(n)| == p
  {
    var k := n / 3;
    assert n == 3 * k + n % 3;
    var c := n + (n + 2) / 3 - 4 * k;
    assert c == if n % 3 == 0 then 0 else if n % 3 == 1 then 2 else 3;
    DivMod(k, c + p - (if c + p >= 4 then 4 else 0), 4);
    assert (if c + p >= 4 then k + 1 else k) * 4 + c + p - (if c + p >= 4 then 4 else 0) == n + (n + 2) / 3 + p;
  }

  /** A string whose unpadded part spells the packing of `bs`, with a
      whole number of groups, is the encoding of `bs`. */
  lemma Reassemble(s: string, body: string, bs: seq<byte>)
    requires |s| % 4 == 0 && body == s[..|s| - PadCount(s)]
    requires Chars(Pack(bs)) == body
    ensures Encode(bs) == s
  {
    var p := PadCount(s);
    assert |bs| + (|bs| + 2) / 3 + p == |s|;
    PaddingFits(|bs|, p);
    PadCountPads(s);
    var pad := Padding(|bs|);
    assert s[|s| - p..] == pad;
    EncodeSteps(bs, body, pad);
    assert s == body + s[|s| - p..];
  }

  /** Canonical decoding: a string the decoder accepts is the encoding of
      what it decodes to. With `DecodeEncode`, `Decode(s) == Some(bs)`
      exactly when `s == Encode(bs)`. */
  lemma EncodeDecode(s: string)
    requires Decode(s).Some?
    ensures Encode(Decode(s).value) == s
  {
    var body := s[..|s| - PadCount(s)];
    var vs := Values(body).value;
    CharsOfValues(body);
    PackUnpack(vs);
    Reassemble(s, body, Unpack(vs).value);
  }
}
