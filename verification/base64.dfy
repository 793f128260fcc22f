/** The base64 encoding of section 4 of RFC 4648, as `Convert.ToBase64String`
    produces it and `Convert.FromBase64String` reads it, together with the
    URL- and filename-safe alphabet of section 5. */
module Base64 {
  import opened DotNet

  /** The value of one base64 character. */
  type sextet = v: int | 0 <= v < 64

  /** Table 1 of RFC 4648: the character that encodes `v`. */
  function AlphabetChar(v: sextet): (c: char)
    ensures CharValue(c) == Some(v)
    ensures c != '=' && c != '-' && c != '_'
  {
    if v < 26 then ('A' as int + v) as char
    else if v < 52 then ('a' as int + (v - 26)) as char
    else if v < 62 then ('0' as int + (v - 52)) as char
    else if v == 62 then '+'
    else '/'
  }

  /** The inverse of Table 1: the value of `c`, or `None` when `c` is not in
      the standard alphabet (padding `=` included). */
  function CharValue(c: char): (r: Option<sextet>)
    ensures r.Some? ==> c != '=' && c != '-' && c != '_'
  {
    if 'A' <= c <= 'Z' then Some(c as int - 'A' as int)
    else if 'a' <= c <= 'z' then Some(c as int - 'a' as int + 26)
    else if '0' <= c <= '9' then Some(c as int - '0' as int + 52)
    else if c == '+' then Some(62)
    else if c == '/' then Some(63)
    else None
  }

  predicate IsAlphabetChar(c: char) {
    CharValue(c).Some?
  }

  /** Section 5 of RFC 4648: the URL-safe alphabet writes 62 as `-` and 63 as
      `_`; this maps such a character back to the standard alphabet and leaves
      every other character alone. */
  function StandardChar(c: char): (r: char)
    ensures r != '-' && r != '_'
    ensures c != '-' && c != '_' ==> r == c
    ensures c == '-' ==> CharValue(r) == Some(62)
    ensures c == '_' ==> CharValue(r) == Some(63)
  {
    if c == '-' then '+' else if c == '_' then '/' else c
  }

  /** Number of `=` that close the encoding of `n` bytes. */
  function PadCount(n: nat): nat {
    if n % 3 == 1 then 2 else if n % 3 == 2 then 1 else 0
  }

  /** What `Convert.ToBase64String` writes: whole groups of four, alphabet
      characters followed by `pad` (at most two) closing `=`. */
  predicate WellPadded(e: string, pad: nat) {
    && |e| % 4 == 0 && pad <= 2 && pad <= |e|
    && (forall i :: 0 <= i < |e| - pad ==> IsAlphabetChar(e[i]))
    && (forall i :: |e| - pad <= i < |e| ==> e[i] == '=')
  }

  /** A 24-bit group of three bytes read as four 6-bit values, most
      significant first (section 4 of RFC 4648). */
  function Split(b0: byte, b1: byte, b2: byte): (v: seq<sextet>)
    ensures |v| == 4
  {
    [b0 / 4, (b0 % 4) * 16 + b1 / 16, (b1 % 16) * 4 + b2 / 64, b2 % 64]
  }

  /** Four 6-bit values read back as the three bytes of their 24-bit group. */
  function Join(v: seq<sextet>): (b: seq<byte>)
    requires |v| == 4
    ensures |b| == 3
  {
    var v0, v1, v2, v3: int := v[0], v[1], v[2], v[3];
    var b0: byte := v0 * 4 + v1 / 16;
    var b1: byte := (v1 % 16) * 16 + v2 / 4;
    var b2: byte := (v2 % 4) * 64 + v3;
    [b0, b1, b2]
  }

  /** A value rebuilt from its quotient and remainder by a small power of two. */
  lemma QuotientRemainder(q: int, r: int, k: int)
    requires k == 4 || k == 16 || k == 64
    requires 0 <= r < k
    ensures (q * k + r) / k == q && (q * k + r) % k == r
  {
  }

  /** Joining undoes splitting. */
  lemma JoinSplit(b0: byte, b1: byte, b2: byte)
    ensures Join(Split(b0, b1, b2)) == [b0, b1, b2]
  {
    QuotientRemainder(b0 % 4, b1 / 16, 16);
    QuotientRemainder(b1 % 16, b2 / 64, 4);
  }

  /** Four alphabet characters, one per value. */
  function EncodeGroup(v: seq<sextet>): (g: string)
    requires |v| == 4
    ensures |g| == 4
    ensures forall i :: 0 <= i < 4 ==> CharValue(g[i]) == Some(v[i])
  {
    [AlphabetChar(v[0]), AlphabetChar(v[1]), AlphabetChar(v[2]), AlphabetChar(v[3])]
  }

  /** A well-padded encoding stays well padded behind a group of four
      alphabet characters. */
  lemma WellPaddedCons(g: string, rest: string, pad: nat)
    requires |g| == 4 && forall i :: 0 <= i < 4 ==> IsAlphabetChar(g[i])
    requires WellPadded(rest, pad)
    ensures WellPadded(g + rest, pad)
  {
    var s := g + rest;
    assert forall i :: 4 <= i < |s| ==> s[i] == rest[i - 4];
  }

  /** Three bytes fewer is one group fewer and the same padding. */
  lemma LessOneGroup(n: nat)
    requires n >= 3
    ensures PadCount(n - 3) == PadCount(n)
    ensures (n - 3 + 2) / 3 == (n + 2) / 3 - 1
  {
    assert n % 3 == (n - 3) % 3;
  }

  /** `Convert.ToBase64String`: groups of three bytes become four
      characters; a final group of one or two bytes is encoded as if
      completed with zero bytes, and its last two or one characters are
      replaced by `==` or `=`. */
  function ToBase64String(b: seq<byte>): (r: string)
    ensures |r| == 4 * ((|b| + 2) / 3)
    ensures WellPadded(r, PadCount(|b|))
    decreases |b|
  {
    if |b| == 0 then ""
    else if |b| == 1 then
      var v := Split(b[0], 0, 0);
      [AlphabetChar(v[0]), AlphabetChar(v[1]), '=', '=']
    else if |b| == 2 then
      var v := Split(b[0], b[1], 0);
      [AlphabetChar(v[0]), AlphabetChar(v[1]), AlphabetChar(v[2]), '=']
    else
      var g, rest := EncodeGroup(Split(b[0], b[1], b[2])), ToBase64String(b[3..]);
      LessOneGroup(|b|);
      WellPaddedCons(g, rest, PadCount(|b|));
      g + rest
  }

  /** Decodes one group of four characters. Only the `last` group may end
      in `=` (one or two of them); such a group decodes as if its pad
      characters were zero and keeps only the one or two whole bytes. */
  function DecodeGroup(g: string, last: bool): (r: Result<seq<byte>>)
    requires |g| == 4
    ensures r.Ok? ==> 1 <= |r.value| <= 3
    ensures r.Ok? && !last ==> |r.value| == 3
    ensures r.Ok? ==> g[0] != '=' && g[1] != '='
    ensures r.Throw? ==> r.error == FormatException
  {
    var v0, v1, v2, v3 := CharValue(g[0]), CharValue(g[1]), CharValue(g[2]), CharValue(g[3]);
    if v0.None? || v1.None? then Throw(FormatException)
    else if last && g[2] == '=' && g[3] == '=' then Ok(Join([v0.value, v1.value, 0, 0])[..1])
    else if v2.None? then Throw(FormatException)
    else if last && g[3] == '=' then Ok(Join([v0.value, v1.value, v2.value, 0])[..2])
    else if v3.None? then Throw(FormatException)
    else Ok(Join([v0.value, v1.value, v2.value, v3.value]))
  }

  /** Two decoding outcomes in sequence: the first failure, or both byte
      strings joined. */
  function AppendDecoded(head: Result<seq<byte>>, tail: Result<seq<byte>>): Result<seq<byte>> {
    if head.Throw? then head else if tail.Throw? then tail else Ok(head.value + tail.value)
  }

  /** `Convert.FromBase64String`, read strictly by section 4 of RFC 4648:
      the length is a multiple of four, every character is in the alphabet,
      and `=` appears only as one or two closing pad characters. */
  function FromBase64String(s: string): (r: Result<seq<byte>>)
    ensures |s| % 4 != 0 ==> r == Throw(FormatException)
    ensures r.Throw? ==> r.error == FormatException
    ensures r.Ok? ==> |r.value| <= 3 * (|s| / 4) <= |r.value| + 2
    ensures r.Ok? ==> forall i :: 0 <= i < |s| - 2 ==> s[i] != '='
    decreases |s|
  {
    if |s| % 4 != 0 then Throw(FormatException)
    else if s == [] then Ok([])
    else AppendDecoded(DecodeGroup(s[..4], |s| == 4), FromBase64String(s[4..]))
  }

  /** One full group round-trips. */
  lemma DecodeEncodeGroup(b0: byte, b1: byte, b2: byte, last: bool)
    ensures DecodeGroup(EncodeGroup(Split(b0, b1, b2)), last) == Ok([b0, b1, b2])
  {
    var v := Split(b0, b1, b2);
    var g := EncodeGroup(v);
    assert g[2] != '=' && g[3] != '=';
    assert [v[0], v[1], v[2], v[3]] == v;
    JoinSplit(b0, b1, b2);
  }

  /** A single group is decoded as the last one. */
  lemma DecodeSingleGroup(s: string)
    requires |s| == 4
    ensures FromBase64String(s) == DecodeGroup(s, true)
  {
    assert s[..4] == s;
    assert s[4..] == [];
    assert FromBase64String([]) == Ok([]);
    match DecodeGroup(s, true)
    case Ok(h) => assert h + [] == h;
    case Throw(_) =>
  }

  /** `FromBase64String` of more than one group, one step unfolded. */
  lemma FromBase64StringUnfold(s: string)
    requires |s| % 4 == 0 && |s| > 4
    ensures FromBase64String(s) == AppendDecoded(DecodeGroup(s[..4], false), FromBase64String(s[4..]))
  {
  }

  /** `FromBase64String` of a group followed by more groups, one step
      unfolded. */
  lemma FromBase64StringStep(g: string, rest: string)
    requires |g| == 4 && |rest| % 4 == 0 && |rest| > 0
    ensures FromBase64String(g + rest) == AppendDecoded(DecodeGroup(g, false), FromBase64String(rest))
  {
    var s := g + rest;
    FromBase64StringUnfold(s);
    assert s[..4] == g;
    assert s[4..] == rest;
  }

  /** A full group in front of a well-formed string decodes in front of it. */
  lemma DecodeCons(g: string, rest: string, head: seq<byte>, tail: seq<byte>)
    requires |g| == 4 && |rest| > 0
    requires DecodeGroup(g, false) == Ok(head)
    requires FromBase64String(rest) == Ok(tail)
    ensures FromBase64String(g + rest) == Ok(head + tail)
  {
    FromBase64StringStep(g, rest);
  }

  /** A closing group of one byte round-trips. */
  lemma DecodeEncodeOne(b0: byte)
    ensures FromBase64String(ToBase64String([b0])) == Ok([b0])
  {
    var v := Split(b0, 0, 0);
    var s := [AlphabetChar(v[0]), AlphabetChar(v[1]), '=', '='];
    assert ToBase64String([b0]) == s;
    assert [v[0], v[1], 0, 0] == v;
    JoinSplit(b0, 0, 0);
    assert CharValue(s[0]) == Some(v[0]) && CharValue(s[1]) == Some(v[1]);
    assert Join(v)[..1] == [b0];
    assert DecodeGroup(s, true) == Ok([b0]);
    DecodeSingleGroup(s);
  }

  /** A closing group of two bytes round-trips. */
  lemma DecodeEncodeTwo(b0: byte, b1: byte)
    ensures FromBase64String(ToBase64String([b0, b1])) == Ok([b0, b1])
  {
    var v := Split(b0, b1, 0);
    var s := [AlphabetChar(v[0]), AlphabetChar(v[1]), AlphabetChar(v[2]), '='];
    assert ToBase64String([b0, b1]) == s;
    assert [v[0], v[1], v[2], 0] == v;
    JoinSplit(b0, b1, 0);
    assert CharValue(s[0]) == Some(v[0]) && CharValue(s[1]) == Some(v[1]) && CharValue(s[2]) == Some(v[2]);
    assert Join(v)[..2] == [b0, b1];
    assert DecodeGroup(s, true) == Ok([b0, b1]);
    DecodeSingleGroup(s);
  }

  /** A full group in front of bytes that round-trip round-trips. */
  lemma DecodeEncodeStep(b0: byte, b1: byte, b2: byte, tail: seq<byte>)
    requires FromBase64String(ToBase64String(tail)) == Ok(tail)
    ensures FromBase64String(ToBase64String([b0, b1, b2] + tail)) == Ok([b0, b1, b2] + tail)
  {
    var b := [b0, b1, b2] + tail;
    assert b[3..] == tail;
    var g := EncodeGroup(Split(b0, b1, b2));
    var rest := ToBase64String(tail);
    assert ToBase64String(b) == g + rest;
    if tail == [] {
      assert g + rest == g;
      DecodeEncodeGroup(b0, b1, b2, true);
      DecodeSingleGroup(g);
    } else {
      DecodeEncodeGroup(b0, b1, b2, false);
      DecodeCons(g, rest, [b0, b1, b2], tail);
    }
  }

  /** Decoding what `ToBase64String` wrote gives back the bytes. */
  lemma {:induction false} DecodeEncode(b: seq<byte>)
    ensures FromBase64String(ToBase64String(b)) == Ok(b)
    decreases |b|
  {
    if |b| == 0 {
    } else if |b| == 1 {
      assert b == [b[0]];
      DecodeEncodeOne(b[0]);
    } else if |b| == 2 {
      assert b == [b[0], b[1]];
      DecodeEncodeTwo(b[0], b[1]);
    } else {
      var head, tail := b[..3], b[3..];
      assert head == [b[0], b[1], b[2]];
      assert head + tail == b;
      DecodeEncode(tail);
      DecodeEncodeStep(b[0], b[1], b[2], tail);
    }
  }

  /** The number of `=` a string closes with, counting at most two. */
  function TrailingPad(s: string): nat {
    if |s| >= 2 && s[|s| - 2] == '=' then 2
    else if |s| >= 1 && s[|s| - 1] == '=' then 1
    else 0
  }

  /** A well-padded string has only one padding: the `=` it closes with. */
  lemma WellPaddedPad(e: string, pad: nat)
    requires WellPadded(e, pad)
    ensures pad == TrailingPad(e)
  {
    if |e| > 0 {
      assert e[|e| - 1] == '=' <==> pad > 0;
      assert e[|e| - 2] == '=' <==> pad == 2;
    }
  }

  /** An inner group decodes exactly when its four characters are all in the
      alphabet. */
  lemma DecodeInnerGroupOk(g: string)
    requires |g| == 4
    ensures DecodeGroup(g, false).Ok? <==> forall i :: 0 <= i < 4 ==> IsAlphabetChar(g[i])
  {
    if forall i :: 0 <= i < 4 ==> IsAlphabetChar(g[i]) {
      assert IsAlphabetChar(g[2]) && IsAlphabetChar(g[3]);
    }
  }

  /** The last group decodes exactly when it is well padded. */
  lemma DecodeLastGroupOk(g: string)
    requires |g| == 4
    ensures DecodeGroup(g, true).Ok? <==> WellPadded(g, TrailingPad(g))
  {
    if DecodeGroup(g, true).Ok? {
      assert IsAlphabetChar(g[0]) && IsAlphabetChar(g[1]);
    }
  }

  /** A string of whole groups is well padded exactly when its first group
      is all alphabet and the rest is well padded. */
  lemma WellPaddedSplit(g: string, rest: string, pad: nat)
    requires |g| == 4 && |rest| > 0
    ensures WellPadded(g + rest, pad) <==>
            (forall i :: 0 <= i < 4 ==> IsAlphabetChar(g[i])) && WellPadded(rest, pad)
  {
    var s := g + rest;
    assert forall i :: 4 <= i < |s| ==> s[i] == rest[i - 4];
    if WellPadded(s, pad) {
      assert forall i :: 0 <= i < |rest| ==> rest[i] == s[i + 4];
      assert forall i :: 0 <= i < 4 ==> g[i] == s[i];
    } else if (forall i :: 0 <= i < 4 ==> IsAlphabetChar(g[i])) && WellPadded(rest, pad) {
      WellPaddedCons(g, rest, pad);
    }
  }

  /** `FromBase64String` succeeds exactly on strings padded the way
      `ToBase64String` pads, closing `=` counted from the end. */
  lemma {:induction false} DecodeOkIffTrailingPad(s: string)
    ensures FromBase64String(s).Ok? <==> WellPadded(s, TrailingPad(s))
    decreases |s|
  {
    if |s| % 4 != 0 || s == [] {
    } else if |s| == 4 {
      DecodeSingleGroup(s);
      DecodeLastGroupOk(s);
    } else {
      var g, rest := s[..4], s[4..];
      assert s == g + rest;
      FromBase64StringStep(g, rest);
      DecodeInnerGroupOk(g);
      DecodeOkIffTrailingPad(rest);
      assert TrailingPad(s) == TrailingPad(rest);
      WellPaddedSplit(g, rest, TrailingPad(s));
    }
  }

  /** `FromBase64String` succeeds exactly on the well-padded strings: any
      character outside the alphabet, a misplaced `=`, more than two `=` or
      a length that is not a multiple of four is a `FormatException`. */
  lemma DecodeOkIffWellPadded(s: string)
    ensures FromBase64String(s).Ok? <==> exists pad :: WellPadded(s, pad)
  {
    DecodeOkIffTrailingPad(s);
    if exists pad :: WellPadded(s, pad) {
      var pad :| WellPadded(s, pad);
      WellPaddedPad(s, pad);
    }
  }

  /** Every character of a string that decodes is an alphabet character or
      `=`. */
  lemma DecodedChars(s: string)
    ensures FromBase64String(s).Ok? ==> forall i :: 0 <= i < |s| ==> IsAlphabetChar(s[i]) || s[i] == '='
  {
    DecodeOkIffTrailingPad(s);
  }

  /** "foo" is the group `Zm9v`. */
  lemma EncodeFoo()
    ensures EncodeGroup(Split(102, 111, 111)) == "Zm9v"
  {
    assert Split(102, 111, 111) == [25, 38, 61, 47];
    assert AlphabetChar(25) == 'Z' && AlphabetChar(38) == 'm';
    assert AlphabetChar(61) == '9' && AlphabetChar(47) == 'v';
  }

  /** "bar" is the group `YmFy`. */
  lemma EncodeBar()
    ensures EncodeGroup(Split(98, 97, 114)) == "YmFy"
  {
    assert Split(98, 97, 114) == [24, 38, 5, 50];
    assert AlphabetChar(24) == 'Y' && AlphabetChar(38) == 'm';
    assert AlphabetChar(5) == 'F' && AlphabetChar(50) == 'y';
  }

  /** Section 10 of RFC 4648: "foobar" is `Zm9vYmFy`. */
  lemma EncodeFoobar()
    ensures ToBase64String([102, 111, 111, 98, 97, 114]) == "Zm9vYmFy"
  {
    var b: seq<byte> := [102, 111, 111, 98, 97, 114];
    assert b[3..] == [98, 97, 114];
    assert ToBase64String(b) == EncodeGroup(Split(102, 111, 111)) + ToBase64String(b[3..]);
    var c := b[3..];
    assert c[3..] == [];
    assert ToBase64String(c) == EncodeGroup(Split(98, 97, 114)) + ToBase64String([]);
    EncodeFoo();
    EncodeBar();
  }

  /** Section 10 of RFC 4648: "fooba" is `Zm9vYmE=`. */
  lemma EncodeFooba()
    ensures ToBase64String([102, 111, 111, 98, 97]) == "Zm9vYmE="
  {
    var b: seq<byte> := [102, 111, 111, 98, 97];
    assert ToBase64String(b) == EncodeGroup(Split(102, 111, 111)) + ToBase64String(b[3..]);
    assert b[3..] == [98, 97];
    EncodeFoo();
    assert Split(98, 97, 0) == [24, 38, 4, 0];
    assert AlphabetChar(24) == 'Y' && AlphabetChar(38) == 'm' && AlphabetChar(4) == 'E';
    assert ToBase64String(b[3..]) == "YmE=";
  }

  /** Section 10 of RFC 4648: "foob" is `Zm9vYg==`; the leftover bits of
      the short last group are written as zero. */
  lemma EncodeFoob()
    ensures ToBase64String([102, 111, 111, 98]) == "Zm9vYg=="
  {
    var b: seq<byte> := [102, 111, 111, 98];
    assert ToBase64String(b) == EncodeGroup(Split(102, 111, 111)) + ToBase64String(b[3..]);
    assert b[3..] == [98];
    EncodeFoo();
    assert Split(98, 0, 0) == [24, 32, 0, 0];
    assert AlphabetChar(24) == 'Y' && AlphabetChar(32) == 'g';
    assert ToBase64String(b[3..]) == "Yg==";
  }
}
