/** The encoder and the decoder of base64.c. */
module Base64 {
  type Byte = x: int | 0 <= x < 256

  const SIZE_MAX: int := 0xFFFF_FFFF_FFFF_FFFF
  const NUL: char := '\0'

  // ---------- the alphabets ----------

  /** `alphabet`: the character for a six-bit value. */
  function Letter(url: bool, v: int): char
    requires 0 <= v < 64
  {
    if v < 26 then 'A' + v as char
    else if v < 52 then 'a' + (v - 26) as char
    else if v < 62 then '0' + (v - 52) as char
    else if v == 62 then (if url then '-' else '+')
    else (if url then '_' else '/')
  }

  /** `reverse_alpabet`, read into an `uint8_t`: -1 becomes 255. */
  function Value(url: bool, c: char): Byte {
    if 'A' <= c <= 'Z' then (c - 'A') as int
    else if 'a' <= c <= 'z' then (c - 'a') as int + 26
    else if '0' <= c <= '9' then (c - '0') as int + 52
    else if c == (if url then '-' else '+') then 62
    else if c == (if url then '_' else '/') then 63
    else 255
  }

  lemma ValueOfLetter(url: bool, v: int)
    requires 0 <= v < 64
    ensures Value(url, Letter(url, v)) == v
    ensures Letter(url, v) != '=' && Letter(url, v) != '\n' && Letter(url, v) != NUL
  {
  }

  // ---------- the tables of RFC 4648 ----------

  const UPPER: string := "ABCDEFGHIJKLMNOPQRSTUVWXYZ"
  const LOWER: string := "abcdefghijklmnopqrstuvwxyz"
  const DIGITS: string := "0123456789"

  /** Table 1 of section 4. */
  const STANDARD: string := UPPER + LOWER + DIGITS + "+/"

  /** Table 2 of section 5. */
  const SAFE: string := UPPER + LOWER + DIGITS + "-_"

  /** The alphabets are the tables. */
  lemma LetterOfTable(v: int)
    requires 0 <= v < 64
    ensures |STANDARD| == |SAFE| == 64
    ensures Letter(false, v) == STANDARD[v] && Letter(true, v) == SAFE[v]
  {
    assert |UPPER| == |LOWER| == 26 && |DIGITS| == 10;
    if v < 26 {
      UpperIs(v);
    } else if v < 52 {
      LowerIs(v - 26);
    } else if v < 62 {
      DigitIs(v - 52);
    }
  }

  lemma UpperIs(k: int)
    requires 0 <= k < 26
    ensures UPPER[k] == 'A' + k as char
  {
  }

  lemma LowerIs(k: int)
    requires 0 <= k < 26
    ensures LOWER[k] == 'a' + k as char
  {
  }

  lemma DigitIs(k: int)
    requires 0 <= k < 10
    ensures DIGITS[k] == '0' + k as char
  {
  }

  // ---------- section 4 of RFC 4648 ----------

  /** Three bytes taken as one number of 24 bits, and that as four of six bits. */
  ghost function Quantum(url: bool, b0: Byte, b1: Byte, b2: Byte): seq<char> {
    var v: int := b0 * 65536 + b1 * 256 + b2;
    [Letter(url, v / 262144), Letter(url, v / 4096 % 64), Letter(url, v / 64 % 64), Letter(url, v % 64)]
  }

  /** The text of sections 4 and 5, without line breaks: a last quantum of one or two bytes is
      filled up with zero bits to whole characters and with `=` to four of them. */
  ghost function Plain(url: bool, bytes: seq<Byte>): (text: seq<char>)
    ensures |text| == (|bytes| + 2) / 3 * 4
  {
    if bytes == [] then [] else
    if |bytes| == 1 then
      var b0: int := bytes[0];
      var v := b0 * 16;
      [Letter(url, v / 64), Letter(url, v % 64), '=', '=']
    else if |bytes| == 2 then
      var b0: int, b1: int := bytes[0], bytes[1];
      var v := (b0 * 256 + b1) * 4;
      [Letter(url, v / 4096), Letter(url, v / 64 % 64), Letter(url, v % 64), '=']
    else
      Quantum(url, bytes[0], bytes[1], bytes[2]) + Plain(url, bytes[3..])
  }

  /** Lines of 64 characters, separated by line feeds. */
  ghost function Lines(text: seq<char>): (lines: seq<char>)
    ensures |lines| == |text| + if text == [] then 0 else (|text| - 1) / 64
  {
    if |text| <= 64 then text else text[..64] + ['\n'] + Lines(text[64..])
  }

  /** What `base64_encode` is to write. */
  ghost function Encoded(url: bool, breaks: bool, bytes: seq<Byte>): seq<char> {
    if breaks then Lines(Plain(url, bytes)) else Plain(url, bytes)
  }

  /** Every 65th character is a line feed, and the others are the text in order. */
  lemma {:induction false} LinesAt(text: seq<char>, k: nat)
    requires k < |Lines(text)|
    ensures k - k / 65 < |text| || k % 65 == 64
    ensures Lines(text)[k] == if k % 65 == 64 then '\n' else text[k - k / 65]
  {
    if |text| > 64 && k >= 65 {
      assert Lines(text)[k] == Lines(text[64..])[k - 65];
      Less65(k);
      LinesAt(text[64..], k - 65);
      hide Lines;
    }
  }

  lemma Less65(k: nat)
    requires k >= 65
    ensures (k - 65) % 65 == k % 65 && (k - 65) / 65 == k / 65 - 1
  {
  }

  /** Section 10 of RFC 4648. */
  lemma TestVectors()
    ensures Plain(false, []) == "" && Plain(false, [0x66]) == "Zg=="
    ensures Plain(false, [0x66, 0x6F]) == "Zm8=" && Plain(false, [0x66, 0x6F, 0x6F]) == "Zm9v"
    ensures Plain(false, [0x66, 0x6F, 0x6F, 0x62]) == "Zm9vYg=="
    ensures Plain(false, [0x66, 0x6F, 0x6F, 0x62, 0x61]) == "Zm9vYmE="
    ensures Plain(false, [0x66, 0x6F, 0x6F, 0x62, 0x61, 0x72]) == "Zm9vYmFy"
  {
    hide *;
    ShortVectors();
    var foo: seq<Byte>, bar: seq<Byte> := [0x66, 0x6F, 0x6F], [0x62, 0x61, 0x72];
    OneQuantum(foo, []);
    OneQuantum(foo, [0x62]);
    OneQuantum(foo, [0x62, 0x61]);
    OneQuantum(foo, bar);
    OneQuantum(bar, []);
    assert foo + [] == foo && bar + [] == bar && foo + bar == [0x66, 0x6F, 0x6F, 0x62, 0x61, 0x72];
    assert foo + [0x62] == [0x66, 0x6F, 0x6F, 0x62] && foo + [0x62, 0x61] == [0x66, 0x6F, 0x6F, 0x62, 0x61];
    assert "Zm9v" + "" == "Zm9v" && "Zm9v" + "Yg==" == "Zm9vYg==" && "Zm9v" + "YmE=" == "Zm9vYmE=";
    assert "YmFy" + "" == "YmFy" && "Zm9v" + "YmFy" == "Zm9vYmFy";
  }

  lemma ShortVectors()
    ensures Plain(false, []) == "" && Plain(false, [0x66]) == "Zg==" && Plain(false, [0x66, 0x6F]) == "Zm8="
    ensures Plain(false, [0x62]) == "Yg==" && Plain(false, [0x62, 0x61]) == "YmE="
    ensures Quantum(false, 0x66, 0x6F, 0x6F) == "Zm9v" && Quantum(false, 0x62, 0x61, 0x72) == "YmFy"
  {
  }

  lemma OneQuantum(a: seq<Byte>, b: seq<Byte>)
    requires |a| == 3
    ensures Plain(false, a + b) == Quantum(false, a[0], a[1], a[2]) + Plain(false, b)
  {
    assert (a + b)[3..] == b;
  }

  // ---------- the encoder, group by group ----------

  /** base64.c:30-33. */
  function Group(url: bool, b0: Byte, b1: Byte, b2: Byte): seq<char> {
    [Letter(url, b0 / 4), Letter(url, b0 % 4 * 16 + b1 / 16), Letter(url, b1 % 16 * 4 + b2 / 64), Letter(url, b2 % 64)]
  }

  /** base64.c:41-51. */
  function LastGroup(url: bool, bytes: seq<Byte>): seq<char>
    requires |bytes| < 3
  {
    if |bytes| == 1 then [Letter(url, bytes[0] / 4), Letter(url, bytes[0] % 4 * 16), '=', '=']
    else if |bytes| == 2 then
      [Letter(url, bytes[0] / 4), Letter(url, bytes[0] % 4 * 16 + bytes[1] / 16), Letter(url, bytes[1] % 16 * 4), '=']
    else []
  }

  /** The rest of the text when `o` characters have been written. */
  ghost function Rest(url: bool, breaks: bool, bytes: seq<Byte>, o: nat): seq<char> {
    if |bytes| < 3 then LastGroup(url, bytes) else
    Group(url, bytes[0], bytes[1], bytes[2])
    + (if breaks && (o + 4) % 64 == 0 && |bytes| > 3 then ['\n'] else [])
    + Rest(url, breaks, bytes[3..], o + 4)
  }

  lemma GroupIsQuantum(url: bool, b0: Byte, b1: Byte, b2: Byte)
    ensures Group(url, b0, b1, b2) == Quantum(url, b0, b1, b2)
  {
    var v := b0 * 65536 + b1 * 256 + b2;
    assert v == b0 / 4 * 262144 + (b0 % 4 * 16 + b1 / 16) * 4096 + (b1 % 16 * 4 + b2 / 64) * 64 + b2 % 64;
    Digits(b0 / 4, b0 % 4 * 16 + b1 / 16, b1 % 16 * 4 + b2 / 64, b2 % 64);
  }

  lemma Digits(a: int, b: int, c: int, d: int)
    requires 0 <= b < 64 && 0 <= c < 64 && 0 <= d < 64
    ensures var v := a * 262144 + b * 4096 + c * 64 + d;
            v / 262144 == a && v / 4096 % 64 == b && v / 64 % 64 == c && v % 64 == d
  {
    var v := a * 262144 + b * 4096 + c * 64 + d;
    assert v / 64 == a * 4096 + b * 64 + c;
    assert v / 4096 == a * 64 + b;
  }

  lemma LastIsPlain(url: bool, bytes: seq<Byte>)
    requires |bytes| < 3
    ensures LastGroup(url, bytes) == Plain(url, bytes)
  {
    if |bytes| == 1 {
      var b0: int := bytes[0];
      Digits(0, 0, b0 / 4, b0 % 4 * 16);
      assert b0 * 16 == b0 / 4 * 64 + b0 % 4 * 16;
    } else if |bytes| == 2 {
      var b0: int, b1: int := bytes[0], bytes[1];
      Digits(0, b0 / 4, b0 % 4 * 16 + b1 / 16, b1 % 16 * 4);
      assert (b0 * 256 + b1) * 4 == b0 / 4 * 4096 + (b0 % 4 * 16 + b1 / 16) * 64 + b1 % 16 * 4;
    }
  }

  /** Without breaks the groups make up the text of the standard. */
  lemma {:induction false} RestIsPlain(url: bool, bytes: seq<Byte>, o: nat)
    ensures Rest(url, false, bytes, o) == Plain(url, bytes)
  {
    if |bytes| < 3 {
      LastIsPlain(url, bytes);
    } else {
      GroupIsQuantum(url, bytes[0], bytes[1], bytes[2]);
      RestIsPlain(url, bytes[3..], o + 4);
    }
  }

  /** `Lines` of a text of which `o` characters are already on the current line. */
  ghost function LinesFrom(text: seq<char>, o: nat): seq<char>
    requires o < 64
  {
    if |text| <= 64 - o then text else text[..64 - o] + ['\n'] + Lines(text[64 - o..])
  }

  /** With breaks they make up its lines. */
  lemma {:induction false} RestIsLines(url: bool, bytes: seq<Byte>, o: nat)
    requires o % 4 == 0
    ensures Rest(url, true, bytes, o) == LinesFrom(Plain(url, bytes), o % 64)
  {
    if |bytes| < 3 {
      LastIsPlain(url, bytes);
    } else {
      RestIsLines(url, bytes[3..], o + 4);
      LinesStep(url, bytes, o);
    }
  }

  lemma LinesStep(url: bool, bytes: seq<Byte>, o: nat)
    requires o % 4 == 0 && |bytes| >= 3
               && Rest(url, true, bytes[3..], o + 4) == LinesFrom(Plain(url, bytes[3..]), (o + 4) % 64)
    ensures Rest(url, true, bytes, o) == LinesFrom(Plain(url, bytes), o % 64)
  {
    hide *;
    var g, p := Group(url, bytes[0], bytes[1], bytes[2]), Plain(url, bytes[3..]);
    PlainStep(url, bytes);
    PlainEmpty(url, bytes[3..]);
    NextColumn(o);
    RestStep(url, true, bytes, 0, o);
    assert bytes[0..] == bytes;
    GroupOnLine(g, p, o % 64);
  }

  lemma PlainStep(url: bool, bytes: seq<Byte>)
    requires |bytes| >= 3
    ensures Plain(url, bytes) == Group(url, bytes[0], bytes[1], bytes[2]) + Plain(url, bytes[3..])
    ensures |Group(url, bytes[0], bytes[1], bytes[2])| == 4
  {
    GroupIsQuantum(url, bytes[0], bytes[1], bytes[2]);
  }

  lemma PlainEmpty(url: bool, bytes: seq<Byte>)
    ensures Plain(url, bytes) == [] <==> bytes == []
  {
  }

  lemma NextColumn(o: nat)
    ensures (o + 4) % 64 == (o % 64 + 4) % 64
    ensures o % 4 == 0 ==> o % 64 + 4 <= 64 && ((o + 4) % 64 == 0 <==> o % 64 + 4 == 64)
  {
  }

  /** One group more on the current line. */
  lemma GroupOnLine(g: seq<char>, p: seq<char>, c: nat)
    requires |g| == 4 && c + 4 <= 64
    ensures LinesFrom(g + p, c) == g + (if c + 4 == 64 && p != [] then ['\n'] else []) + LinesFrom(p, (c + 4) % 64)
  {
    hide LinesFrom;
    Column(c + 4);
    if c + 4 == 64 {
      GroupEndsLine(g, p);
    } else {
      GroupInLine(g, p, c);
    }
  }

  lemma Column(c: nat)
    requires c <= 64
    ensures c % 64 == if c == 64 then 0 else c
  {
  }

  lemma GroupInLine(g: seq<char>, p: seq<char>, c: nat)
    requires |g| == 4 && c + 4 < 64
    ensures LinesFrom(g + p, c) == g + LinesFrom(p, c + 4)
  {
    hide Lines;
    if |p| > 60 - c {
      var t := g + p;
      assert t[..64 - c] == g + p[..60 - c] && t[64 - c..] == p[60 - c..];
    }
  }

  lemma GroupEndsLine(g: seq<char>, p: seq<char>)
    requires |g| == 4
    ensures LinesFrom(g + p, 60) == g + (if p != [] then ['\n'] else []) + LinesFrom(p, 0)
  {
    var t := g + p;
    assert t[..4] == g && t[4..] == p;
    LinesFromStart(p);
    hide Lines;
  }

  lemma LinesFromStart(p: seq<char>)
    ensures LinesFrom(p, 0) == Lines(p)
  {
  }

  /** The encoder's groups are the text the standard wants. */
  lemma RestIsEncoded(url: bool, breaks: bool, bytes: seq<Byte>)
    ensures Rest(url, breaks, bytes, 0) == Encoded(url, breaks, bytes)
  {
    if breaks {
      RestIsLines(url, bytes, 0);
    } else {
      RestIsPlain(url, bytes, 0);
    }
  }

  // ---------- lengths ----------

  /** `base64_encode_buffer_size`, with `size_t` arithmetic. */
  function BufferSize(n: int, breaks: bool): int {
    var len := (n + 5) % (SIZE_MAX + 1) / 3 * 4 % (SIZE_MAX + 1);
    if breaks then (len + (len + 63) % (SIZE_MAX + 1) / 64) % (SIZE_MAX + 1) else len
  }

  /** The exact length of the text, and that it fits with its NUL. */
  lemma EncodedLength(url: bool, breaks: bool, bytes: seq<Byte>)
    ensures |Encoded(url, breaks, bytes)|
         == (|bytes| + 2) / 3 * 4 + if breaks && bytes != [] then ((|bytes| + 2) / 3 * 4 - 1) / 64 else 0
  {
  }

  /** The buffer of `base64_encode_buffer_size` holds the text and its NUL. */
  lemma BufferHolds(url: bool, breaks: bool, bytes: seq<Byte>)
    requires |bytes| < 0x8000_0000_0000_0000
    ensures |Encoded(url, breaks, bytes)| + 1 <= BufferSize(|bytes|, breaks)
  {
    EncodedLength(url, breaks, bytes);
    BufferExact(|bytes|, breaks);
  }

  lemma BufferExact(n: nat, breaks: bool)
    requires n < 0x8000_0000_0000_0000
    ensures var len := (n + 2) / 3 * 4;
            BufferSize(n, breaks) == len + 4 + if breaks then (len + 67) / 64 else 0
  {
    var q := (n + 2) / 3;
    assert (n + 5) / 3 == q + 1 && q <= n;
    Fits(n + 5);
    Fits((q + 1) * 4);
    Fits((q + 1) * 4 + 63);
    Fits((q + 1) * 4 + ((q + 1) * 4 + 63) / 64);
  }

  lemma Fits(x: nat)
    ensures x <= SIZE_MAX ==> x % (SIZE_MAX + 1) == x
  {
  }

  /** base64.c:30-38 and 41-52. */
  method Encode(out: array<char>, bytes: seq<Byte>, url: bool, breaks: bool) returns (n: nat)
    requires |Encoded(url, breaks, bytes)| < out.Length
    modifies out
    ensures n == |Encoded(url, breaks, bytes)|
    ensures out[..n] == Encoded(url, breaks, bytes) && out[n] == NUL && out[n + 1..] == old(out[n + 1..])
  {
    RestIsEncoded(url, breaks, bytes);
    ghost var text := Encoded(url, breaks, bytes);
    var o, i, p := 0, |bytes|, 0;
    n := 0;
    while i >= 3
      invariant 0 <= p && i == |bytes| - p && i >= 0 && o >= 0 && n <= |text|
      invariant out[..n] + Rest(url, breaks, bytes[p..], o) == text
      invariant out[|text| + 1..] == old(out[|text| + 1..])
    {
      n := PutGroup(out, n, bytes, p, o, url, breaks, text);
      i := i - 3;
      p := p + 3;
      o := o + 4;
    }
    n := PutLast(out, n, bytes[p..], url, text);
    out[n] := NUL;
  }

  /** base64.c:30-38. */
  method PutGroup(out: array<char>, n0: nat, bytes: seq<Byte>, p: nat, o: nat, url: bool, breaks: bool,
                  ghost text: seq<char>)
    returns (n: nat)
    requires p + 3 <= |bytes| && n0 <= |text| < out.Length
    requires out[..n0] + Rest(url, breaks, bytes[p..], o) == text
    modifies out
    ensures n <= |text| && out[..n] + Rest(url, breaks, bytes[p + 3..], o + 4) == text
    ensures out[|text| + 1..] == old(out[|text| + 1..])
  {
    hide Rest, Letter;
    RestStep(url, breaks, bytes, p, o);
    n := Put(out, n0, Letter(url, bytes[p] / 4), Letter(url, bytes[p] % 4 * 16 + bytes[p + 1] / 16),
             Letter(url, bytes[p + 1] % 16 * 4 + bytes[p + 2] / 64), Letter(url, bytes[p + 2] % 64), |text|);
    ghost var before := out[..n];
    if breaks && (o + 4) % 64 == 0 && |bytes| - p - 3 != 0 {
      out[n] := '\n';
      n := n + 1;
    }
  }

  /** base64.c:41-51. */
  method PutLast(out: array<char>, n0: nat, bytes: seq<Byte>, url: bool, ghost text: seq<char>) returns (n: nat)
    requires |bytes| < 3 && n0 <= |text| < out.Length && out[..n0] + LastGroup(url, bytes) == text
    modifies out
    ensures n == |text| && out[..n] == text && out[|text| + 1..] == old(out[|text| + 1..])
  {
    n := n0;
    if |bytes| == 1 {
      n := Put(out, n, Letter(url, bytes[0] / 4), Letter(url, bytes[0] % 4 * 16), '=', '=', |text|);
    } else if |bytes| == 2 {
      n := Put(out, n, Letter(url, bytes[0] / 4), Letter(url, bytes[0] % 4 * 16 + bytes[1] / 16),
        Letter(url, bytes[1] % 16 * 4), '=', |text|);
    }
  }

  /** Four times `*out++ = ...`. */
  method Put(out: array<char>, n: nat, c0: char, c1: char, c2: char, c3: char, ghost end: nat) returns (n': nat)
    requires n + 4 <= end < out.Length
    modifies out
    ensures n' == n + 4 && out[..n'] == old(out[..n]) + [c0, c1, c2, c3]
    ensures out[end..] == old(out[end..])
  {
    out[n] := c0;
    out[n + 1] := c1;
    out[n + 2] := c2;
    out[n + 3] := c3;
    n' := n + 4;
  }

  lemma RestStep(url: bool, breaks: bool, bytes: seq<Byte>, p: nat, o: nat)
    requires p + 3 <= |bytes|
    ensures Rest(url, breaks, bytes[p..], o)
         == Group(url, bytes[p], bytes[p + 1], bytes[p + 2])
            + (if breaks && (o + 4) % 64 == 0 && |bytes| > p + 3 then ['\n'] else [])
            + Rest(url, breaks, bytes[p + 3..], o + 4)
  {
    assert bytes[p..][3..] == bytes[p + 3..];
  }

  // ---------- the decoder ----------

  /** What one run of the decoder writes, and whether it returns that many bytes, not 0. */
  datatype Decoding = Decoding(bytes: seq<Byte>, complete: bool)

  function Shifted(x: int): Byte {
    x % 256
  }

  /** `base64_decode` on the memory `s`, of which `left` characters are text. */
  ghost function Decoded(url: bool, s: seq<char>, left: int): Decoding
    requires Readable(url, s, left)
    decreases |s|
  {
    if left <= 0 || s[0] == NUL then Decoding([], true) else
    var a, b := Value(url, s[0]), Value(url, s[1]);
    var first := Shifted(a * 4 + b / 16);
    if s[2] == '=' || s[2] == NUL then Decoding([first], s[2] == NUL || s[3] == '=') else
    var c := Value(url, s[2]);
    var second := Shifted(Shifted(b * 16) + c / 4);
    if s[3] == '=' || s[3] == NUL then Decoding([first, second], true) else
    var third := Shifted(c * 64 + Value(url, s[3]));
    var k := if s[4] == '\n' then 5 else 4;
    var rest := Decoded(url, s[k..], left - k);
    Decoding([first, second, third] + rest.bytes, rest.complete)
  }

  /** All characters the decoder looks at are there. */
  ghost predicate Readable(url: bool, s: seq<char>, left: int)
    decreases |s|
  {
    left > 0 ==>
      && |s| > 0
      && (s[0] != NUL ==>
            && |s| > 3
            && (s[2] != '=' && s[2] != NUL && s[3] != '=' && s[3] != NUL ==>
                  |s| > 4 && var k := if s[4] == '\n' then 5 else 4; Readable(url, s[k..], left - k)))
  }

  /** A `=` in third place that no other one follows ends the decoding without success. */
  lemma StrayPad(url: bool, a: char, b: char, d: char, rest: seq<char>, left: int)
    requires left > 0 && a != NUL && d != '='
    ensures var s := [a, b, '=', d] + rest; Readable(url, s, left) && !Decoded(url, s, left).complete
  {
    var s := [a, b, '=', d] + rest;
    assert s[0] == a && s[2] == '=' && s[3] == d;
  }

  /** Decoding a text of the encoder gives the bytes back. */
  lemma {:induction false} DecodedRest(url: bool, breaks: bool, bytes: seq<Byte>, o: nat)
    ensures var text := Rest(url, breaks, bytes, o);
            && Readable(url, text + [NUL], |text|)
            && Decoded(url, text + [NUL], |text|) == Decoding(bytes, true)
  {
    if |bytes| < 3 {
      DecodedLast(url, bytes);
    } else {
      DecodedRest(url, breaks, bytes[3..], o + 4);
      DecodedMore(url, breaks, bytes, o);
    }
  }

  lemma DecodedMore(url: bool, breaks: bool, bytes: seq<Byte>, o: nat)
    requires |bytes| >= 3
    requires var rest := Rest(url, breaks, bytes[3..], o + 4);
             Readable(url, rest + [NUL], |rest|) && Decoded(url, rest + [NUL], |rest|) == Decoding(bytes[3..], true)
    ensures var text := Rest(url, breaks, bytes, o);
            Readable(url, text + [NUL], |text|) && Decoded(url, text + [NUL], |text|) == Decoding(bytes, true)
  {
    hide *;
    var g := Group(url, bytes[0], bytes[1], bytes[2]);
    var nl := if breaks && (o + 4) % 64 == 0 && |bytes| > 3 then ['\n'] else [];
    var rest := Rest(url, breaks, bytes[3..], o + 4);
    RestStarts(url, breaks, bytes[3..], o + 4);
    DecodedGroup(url, bytes[0], bytes[1], bytes[2], nl, rest, bytes[3..]);
    GroupValues(url, bytes[0], bytes[1], bytes[2]);
    RestStep(url, breaks, bytes, 0, o);
    assert bytes[0..] == bytes && bytes == [bytes[0], bytes[1], bytes[2]] + bytes[3..];
    assert g + nl + rest + [NUL] == g + nl + (rest + [NUL]);
  }

  lemma RestStarts(url: bool, breaks: bool, bytes: seq<Byte>, o: nat)
    ensures var rest := Rest(url, breaks, bytes, o); rest == [] || rest[0] != '\n'
  {
  }

  lemma DecodedLast(url: bool, bytes: seq<Byte>)
    requires |bytes| < 3
    ensures var text := LastGroup(url, bytes);
            && Readable(url, text + [NUL], |text|)
            && Decoded(url, text + [NUL], |text|) == Decoding(bytes, true)
  {
    if |bytes| > 0 {
      hide LastGroup, Value, Letter, Shifted;
      LastValues(url, bytes);
      var g, b0: int, b1: int := LastGroup(url, bytes), bytes[0], if |bytes| == 2 then bytes[1] else 0;
      FromValues(Value(url, g[0]), Value(url, g[1]), b1 % 16 * 4 + 0 / 64, 0, b0, b1, 0);
      assert |bytes| == 1 ==> bytes == [bytes[0]];
    }
  }

  lemma LastValues(url: bool, bytes: seq<Byte>)
    requires 0 < |bytes| < 3
    ensures var g, b0: int, b1: int := LastGroup(url, bytes), bytes[0], if |bytes| == 2 then bytes[1] else 0;
            && |g| == 4 && g[0] != NUL && g[3] == '=' && (g[2] == '=' <==> |bytes| == 1) && g[2] != NUL
            && Value(url, g[0]) == b0 / 4 && Value(url, g[1]) == b0 % 4 * 16 + b1 / 16
            && (|bytes| == 2 ==> Value(url, g[2]) == b1 % 16 * 4)
  {
    var b0: int, b1: int := bytes[0], if |bytes| == 2 then bytes[1] else 0;
    ValueOfLetter(url, b0 / 4);
    ValueOfLetter(url, b0 % 4 * 16 + b1 / 16);
    ValueOfLetter(url, b1 % 16 * 4);
  }

  lemma Recombined(b0: int, b1: int, b2: int)
    requires 0 <= b0 < 256 && 0 <= b1 < 256 && 0 <= b2 < 256
    ensures var v0, v1, v2, v3 := b0 / 4, b0 % 4 * 16 + b1 / 16, b1 % 16 * 4 + b2 / 64, b2 % 64;
            && Shifted(v0 * 4 + v1 / 16) == b0
            && Shifted(Shifted(v1 * 16) + v2 / 4) == b1
            && Shifted(v2 * 64 + v3) == b2
  {
    Carry(b0 % 4, b1 / 16, 16);
    Carry(b1 % 16, b2 / 64, 4);
    LowByte(b0 % 4, b1 / 16 * 16);
    LowByte(b1 % 16, b2);
  }

  lemma FromValues(v0: int, v1: int, v2: int, v3: int, b0: int, b1: int, b2: int)
    requires 0 <= b0 < 256 && 0 <= b1 < 256 && 0 <= b2 < 256
    requires v0 == b0 / 4 && v1 == b0 % 4 * 16 + b1 / 16 && v2 == b1 % 16 * 4 + b2 / 64 && v3 == b2 % 64
    ensures Shifted(v0 * 4 + v1 / 16) == b0
    ensures Shifted(Shifted(v1 * 16) + v2 / 4) == b1
    ensures Shifted(v2 * 64 + v3) == b2
  {
    Recombined(b0, b1, b2);
  }

  lemma Carry(q: int, r: int, k: int)
    requires (k == 16 || k == 4) && 0 <= r < k
    ensures (q * k + r) / k == q
  {
  }

  lemma LowByte(q: int, r: int)
    requires 0 <= r < 256
    ensures (q * 256 + r) % 256 == r
  {
  }

  lemma DecodedGroup(url: bool, b0: Byte, b1: Byte, b2: Byte, nl: seq<char>, rest: seq<char>, bytes: seq<Byte>)
    requires nl == [] || nl == ['\n']
    requires rest == [] || rest[0] != '\n'
    requires Readable(url, rest + [NUL], |rest|) && Decoded(url, rest + [NUL], |rest|) == Decoding(bytes, true)
    ensures var s := Group(url, b0, b1, b2) + nl + (rest + [NUL]);
            && Readable(url, s, 4 + |nl| + |rest|)
            && Decoded(url, s, 4 + |nl| + |rest|) == Decoding([b0, b1, b2] + bytes, true)
  {
    hide *;
    var g := Group(url, b0, b1, b2);
    GroupValues(url, b0, b1, b2);
    FromValues(Value(url, g[0]), Value(url, g[1]), Value(url, g[2]), Value(url, g[3]), b0, b1, b2);
    Joined(g, nl, rest);
    DecodedStep(url, g + nl + (rest + [NUL]), 4 + |nl| + |rest|);
  }

  lemma Joined(g: seq<char>, nl: seq<char>, rest: seq<char>)
    requires |g| == 4 && (nl == [] || nl == ['\n']) && (rest == [] || rest[0] != '\n')
    ensures var s := g + nl + (rest + [NUL]);
            && |s| > 4 && s[0] == g[0] && s[1] == g[1] && s[2] == g[2] && s[3] == g[3]
            && (s[4] == '\n' <==> nl != []) && s[4 + |nl|..] == rest + [NUL]
  {
    var s := g + nl + (rest + [NUL]);
    assert s == g + (nl + (rest + [NUL]));
    assert s[4] == (nl + (rest + [NUL]))[0];
  }

  lemma GroupValues(url: bool, b0: Byte, b1: Byte, b2: Byte)
    ensures var g := Group(url, b0, b1, b2);
            && |g| == 4 && (forall i | 0 <= i < 4 :: g[i] != NUL && g[i] != '=')
            && Value(url, g[0]) == b0 / 4 && Value(url, g[1]) == b0 % 4 * 16 + b1 / 16
            && Value(url, g[2]) == b1 % 16 * 4 + b2 / 64 && Value(url, g[3]) == b2 % 64
  {
    ValueOfLetter(url, b0 / 4);
    ValueOfLetter(url, b0 % 4 * 16 + b1 / 16);
    ValueOfLetter(url, b1 % 16 * 4 + b2 / 64);
    ValueOfLetter(url, b2 % 64);
  }

  lemma DecodedStep(url: bool, s: seq<char>, left: int)
    requires left > 0 && |s| > 4 && s[0] != NUL && s[2] != '=' && s[2] != NUL && s[3] != '=' && s[3] != NUL
    requires Readable(url, s[if s[4] == '\n' then 5 else 4..], left - if s[4] == '\n' then 5 else 4)
    ensures Readable(url, s, left)
    ensures var k := if s[4] == '\n' then 5 else 4;
            var a, b, c := Value(url, s[0]), Value(url, s[1]), Value(url, s[2]);
            var rest := Decoded(url, s[k..], left - k);
            Decoded(url, s, left) ==
            Decoding([Shifted(a * 4 + b / 16), Shifted(Shifted(b * 16) + c / 4),
              Shifted(c * 64 + Value(url, s[3]))] + rest.bytes, rest.complete)
  {
  }

  /** The round trip. */
  lemma RoundTrip(url: bool, breaks: bool, bytes: seq<Byte>)
    ensures var text := Encoded(url, breaks, bytes);
            Readable(url, text + [NUL], |text|) && Decoded(url, text + [NUL], |text|) == Decoding(bytes, true)
  {
    RestIsEncoded(url, breaks, bytes);
    DecodedRest(url, breaks, bytes, 0);
  }

  /** What the decoder finds at `pos`. */
  lemma DecodedAt(url: bool, src: seq<char>, pos: nat, left: int)
    requires pos <= |src| && Readable(url, src[pos..], left)
    ensures left <= 0 || (pos < |src| && src[pos] == NUL) ==> Decoded(url, src[pos..], left) == Decoding([], true)
    ensures left > 0 ==> pos < |src|
    ensures left > 0 && src[pos] != NUL ==>
              && pos + 3 < |src|
              && var a, b, c, e := Value(url, src[pos]), Value(url, src[pos + 1]), src[pos + 2], src[pos + 3];
                 var d, first := Decoded(url, src[pos..], left), Shifted(a * 4 + b / 16);
                 var second := Shifted(Shifted(b * 16) + Value(url, c) / 4);
                 if c == '=' || c == NUL then d == Decoding([first], c == NUL || e == '=')
                 else if e == '=' || e == NUL then d == Decoding([first, second], true)
                 else
                   && pos + 4 < |src|
                   && var k := if src[pos + 4] == '\n' then 5 else 4;
                      && pos + k <= |src| && Readable(url, src[pos + k..], left - k)
                      && d.bytes == [first, second, Shifted(Value(url, c) * 64 + Value(url, e))]
                         + Decoded(url, src[pos + k..], left - k).bytes
                      && d.complete == Decoded(url, src[pos + k..], left - k).complete
  {
    var s := src[pos..];
    if left > 0 && s[0] != NUL && s[2] != '=' && s[2] != NUL && s[3] != '=' && s[3] != NUL {
      var k := if s[4] == '\n' then 5 else 4;
      assert s[k..] == src[pos + k..];
    }
  }

  /** `base64_decode`. */
  method Decode(out: array<Byte>, src: seq<char>, n: nat, url: bool) returns (o: nat)
    requires Readable(url, src, n) && |Decoded(url, src, n).bytes| <= out.Length
    modifies out
    ensures var d := Decoded(url, src, n);
            && out[..|d.bytes|] == d.bytes
            && o == if d.complete then |d.bytes| else 0
  {
    hide Decoded, Readable;
    ghost var d := Decoded(url, src, n);
    o := 0;
    var pos, done, bad := 0, false, false;
    assert src[0..] == src;
    while pos < n && !done
      invariant 0 <= pos <= |src| && Readable(url, src[pos..], n - pos) && o <= |d.bytes| && !bad
      invariant var r := Decoded(url, src[pos..], n - pos);
                if done then out[..o] == d.bytes && d.complete
                else out[..o] + r.bytes == d.bytes && r.complete == d.complete
      decreases n - pos, if done then 0 else 1
    {
      o, pos, done, bad := DecodeGroup(out, o, src, pos, n - pos, url);
      if bad {
        return 0;
      }
    }
    DecodedAt(url, src, pos, n - pos);
  }

  /** base64.c:112-150: one group; `done` at the end of the text, `bad` when it is malformed. */
  method DecodeGroup(out: array<Byte>, o0: nat, src: seq<char>, pos0: nat, left: int, url: bool)
    returns (o: nat, pos: nat, done: bool, bad: bool)
    requires pos0 <= |src| && left > 0 && Readable(url, src[pos0..], left)
               && o0 + |Decoded(url, src[pos0..], left).bytes| <= out.Length
    modifies out
    ensures o <= out.Length && pos0 <= pos <= |src| && (!done ==> pos0 < pos)
    ensures var d := Decoded(url, src[pos0..], left);
            if done then pos == pos0 && out[..o] == old(out[..o0]) + d.bytes && d.complete == !bad
            else
              && !bad && Readable(url, src[pos..], left - (pos - pos0))
              && var r := Decoded(url, src[pos..], left - (pos - pos0));
                 out[..o] + r.bytes == old(out[..o0]) + d.bytes && r.complete == d.complete
  {
    hide Decoded, Readable, Value, Shifted;
    DecodedAt(url, src, pos0, left);
    o, pos, done, bad := o0, pos0, true, false;
    var a := src[pos];
    if a == NUL {
      return;
    }
    var b := src[pos + 1];
    var A: int, B: int := Value(url, a), Value(url, b);
    out[o] := Shifted(A * 4 + B / 16);
    o := o + 1;
    var val: int := Shifted(B * 16);
    var c, e := src[pos + 2], src[pos + 3];
    if c == '=' || c == NUL {
      bad := c == '=' && e != '=';
      return;
    }
    var C: int := Value(url, c);
    out[o] := Shifted(val + C / 4);
    o := o + 1;
    if e == '=' || e == NUL {
      return;
    }
    var D: int := Value(url, e);
    out[o] := Shifted(C * 64 + D);
    o := o + 1;
    pos, done := pos + 4, false;
    if src[pos] == '\n' {
      pos := pos + 1;
    }
  }
}
