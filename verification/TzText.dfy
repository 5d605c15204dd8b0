/** POSIX time zone strings as tzset.c reads and writes them, as functions of the text. */
module TzText {
  datatype Option<T> = None | Some(value: T)

  // ---------- characters and numbers ----------

  predicate Letter(c: char) {
    'a' <= c <= 'z' || 'A' <= c <= 'Z'
  }

  predicate Digit(c: char) {
    '0' <= c <= '9'
  }

  predicate Space(c: char) {
    c == ' ' || '\t' <= c <= '\r'
  }

  predicate NameChar(c: char) {
    Letter(c) || Digit(c) || c == '+' || c == '-'
  }

  /** The length of the longest prefix of such characters. */
  function Run(f: char -> bool, s: string): (n: nat)
    ensures n <= |s| && (n < |s| ==> !f(s[n])) && forall i | 0 <= i < n :: f(s[i])
  {
    if s == [] || !f(s[0]) then 0 else
    var n := Run(f, s[1..]);
    assert forall i | 1 <= i < n + 1 :: s[i] == s[1..][i - 1];
    n + 1
  }

  lemma {:induction false} RunIs(f: char -> bool, a: string, b: string)
    requires (forall c | c in a :: f(c)) && (b == [] || !f(b[0]))
    ensures Run(f, a + b) == |a|
    ensures (a + b)[..|a|] == a && (a + b)[|a|..] == b
  {
    if a == [] {
      assert a + b == b;
    } else {
      assert (a + b)[1..] == a[1..] + b;
      RunIs(f, a[1..], b);
    }
  }

  /** What a decimal number means; characters other than digits do not occur. */
  function Number(s: string): nat {
    if s == [] then 0 else Number(s[..|s| - 1]) * 10 + (if Digit(s[|s| - 1]) then (s[|s| - 1] - '0') as int else 0)
  }

  /** `%hu`. */
  function Decimal(n: nat): (s: string)
    ensures |s| > 0 && forall c | c in s :: Digit(c)
  {
    if n < 10 then ['0' + n as char] else Decimal(n / 10) + ['0' + (n % 10) as char]
  }

  /** `%02hu`. */
  function Decimal2(n: nat): (s: string)
    ensures |s| > 0 && forall c | c in s :: Digit(c)
  {
    if n < 10 then "0" + Decimal(n) else Decimal(n)
  }

  lemma {:induction false} NumberOfDecimal(n: nat)
    ensures Number(Decimal(n)) == n
  {
    if n >= 10 {
      NumberOfDecimal(n / 10);
      assert Decimal(n)[..|Decimal(n)| - 1] == Decimal(n / 10);
    }
  }

  lemma NumberOfDecimal2(n: nat)
    ensures Number(Decimal2(n)) == n
  {
    NumberOfDecimal(n);
    if n < 10 {
      var s := Decimal2(n);
      assert s[..1] == "0" && s[..1][..0] == [];
      assert Number("0") == 0;
    }
  }

  // ---------- sscanf ----------

  datatype Scan = Scan(value: int, rest: string)

  /** `%hu`: white space, a sign, digits. */
  function ScanHu(s: string): Option<Scan> {
    var t := s[Run(Space, s)..];
    var u := if t != [] && (t[0] == '-' || t[0] == '+') then t[1..] else t;
    var k := Run(Digit, u);
    if k == 0 then None else
    var v: int := Number(u[..k]);
    Some(Scan((if t[0] == '-' then -v else v) % 0x1_0000, u[k..]))
  }

  datatype Time = Time(count: nat, h: int, m: int, s: int, rest: string)

  /** `%hu%n:%hu%n:%hu%n`; what is not read stays `h`, `m`, `s`. */
  function ScanTime(text: string, h: int, m: int, s: int): Time {
    match ScanHu(text)
    case None => Time(0, h, m, s, text)
    case Some(a) =>
      if a.rest == [] || a.rest[0] != ':' then Time(1, a.value, m, s, a.rest) else
      match ScanHu(a.rest[1..])
      case None => Time(1, a.value, m, s, a.rest)
      case Some(b) =>
        if b.rest == [] || b.rest[0] != ':' then Time(2, a.value, b.value, s, b.rest) else
        match ScanHu(b.rest[1..])
        case None => Time(2, a.value, b.value, s, b.rest)
        case Some(c) => Time(3, a.value, b.value, c.value, c.rest)
  }

  /** Reading back digits. */
  lemma ScanDigits(d: string, n: nat, rest: string)
    requires |d| > 0 && (forall c | c in d :: Digit(c)) && Number(d) == n < 0x1_0000
    requires rest == [] || !Digit(rest[0])
    ensures ScanHu(d + rest) == Some(Scan(n, rest))
  {
    hide *;
    var s := d + rest;
    RunIs(Digit, d, rest);
    FirstIsDigit(d, rest);
    ScanIs(s, |d|);
    assert s[..|d|] == d && s[|d|..] == rest;
  }

  lemma ScanIs(s: string, k: nat)
    requires s != [] && Digit(s[0]) && Run(Space, s) == 0 && 0 < k == Run(Digit, s)
    ensures ScanHu(s) == Some(Scan(Number(s[..k]) % 0x1_0000, s[k..]))
  {
    hide Number, Run;
    assert s[0..] == s;
  }

  lemma FirstIsDigit(d: string, rest: string)
    requires |d| > 0 && (forall c | c in d :: Digit(c))
    ensures Digit((d + rest)[0]) && Run(Space, d + rest) == 0
  {
    assert (d + rest)[0] == d[0] && d[0] in d;
  }

  lemma ScanNothing(s: string)
    requires s == [] || !(Space(s[0]) || Digit(s[0]) || s[0] == '+' || s[0] == '-')
    ensures ScanHu(s) == None
  {
  }

  // ---------- the information in a string ----------

  datatype Offset = Offset(sign: int, h: int, m: int, s: int)
  datatype Zone = Zone(name: string, offset: Offset)
  datatype Kind = J0 | J1 | M
  datatype Rule = Rule(kind: Kind, m: int, n: int, d: int, offset: Offset)

  /** `tz_info_t`, its mask as four flags. */
  datatype Info = Info(std: Zone, dst: Zone, start: Rule, end: Rule,
                       stdSet: bool, dstSet: bool, startSet: bool, endSet: bool)

  const NO_OFFSET := Offset(0, 0, 0, 0)
  const NO_ZONE := Zone("", NO_OFFSET)
  const NO_RULE := Rule(J0, 0, 0, 0, NO_OFFSET)

  /** `hhmmss_to_offset`. */
  function Seconds(o: Offset): int {
    o.sign * (o.s + (o.m + o.h * 60) * 60)
  }

  /** `offset_to_hhmmss`. */
  function FromSeconds(n: int): Offset {
    var a := if n < 0 then -n else n;
    Offset(if n > 0 then 1 else -1, a / 3600, a / 60 % 60, a % 60)
  }

  /** `check_tzzone_offset_right`. */
  predicate ZoneOffsetOk(o: Offset) {
    -43200 <= Seconds(o) <= 50400 && o.m <= 59 && o.s <= 59
  }

  /** `check_tzrule_offset`. */
  predicate RuleOffsetOk(o: Offset) {
    o.sign > 0 && o.h <= 23 && o.m <= 59 && o.s <= 59
  }

  datatype Error =
    | InvalidStdName | InvalidStdOffset | InvalidDstName | InvalidDstOffset
    | DstTimeOutOfRange | DstTimeConflict | InvalidParameter | WrongSyntax | EmptyDstInfo | Internal

  datatype Result<T> = Ok(value: T) | Err(error: Error)

  datatype Parsed<T> = Parsed(value: T, rest: string)

  // ---------- reading ----------

  /** A name is cut to the 17 characters of its buffer. */
  function Cut(name: string): string {
    if |name| > 17 then name[..17] else name
  }

  /** `parse_tzname`. */
  function ParseName(s: string): Option<Parsed<string>> {
    var k := Run(Letter, s);
    if k >= 3 then Some(Parsed(Cut(s[..k]), s[k..]))
    else if s == [] || s[0] != '<' then None
    else
      var t := s[1..];
      var l := Run(NameChar, t);
      if l == |t| || t[l] != '>' || l < 3 then None else Some(Parsed(Cut(t[..l]), t[l + 1..]))
  }

  predicate Signed(s: string) {
    s != [] && (s[0] == '+' || s[0] == '-')
  }

  /** `parse_offset`; `std` is the offset of the standard time when that of the other time is read. */
  function ParseOffset(s: string, std: Option<Offset>): Option<Parsed<Offset>> {
    if std == None && !Signed(s) && (s == [] || !Digit(s[0])) then None else
    var sign, t := if Signed(s) && s[0] == '-' then 1 else -1, if Signed(s) then s[1..] else s;
    var r := ScanTime(t, 0, 0, 0);
    var o := Offset(sign, r.h, r.m, r.s);
    if r.count > 0 then
      if ZoneOffsetOk(o) then Some(Parsed(o, r.rest)) else None
    else if std == None then Some(Parsed(o, t))
    else Some(Parsed(HourLater(std.value), t))
  }

  /** The default: an hour ahead of standard time. */
  function HourLater(std: Offset): Offset {
    var o := FromSeconds(Seconds(std) + 3600);
    if ZoneOffsetOk(o) then o else std
  }

  /** The day of `parse_rule`. */
  function ParseDay(t: string, start: bool): Option<Parsed<Rule>> {
    if t == [] then
      Some(Parsed(if start then Rule(M, 3, 2, 0, NO_OFFSET) else Rule(M, 11, 1, 0, NO_OFFSET), []))
    else if t[0] == 'J' || Digit(t[0]) then
      var kind, u := if t[0] == 'J' then J1 else J0, if t[0] == 'J' then t[1..] else t;
      var k := Run(Digit, u);
      var d := Number(u[..k]);
      if k == 0 || d > 365 || (kind == J1 && d == 0) then None else Some(Parsed(Rule(kind, 0, 0, d, NO_OFFSET), u[k..]))
    else if t[0] == 'M' then ParseMonth(t[1..])
    else None
  }

  /** `%hu.%hu.%hu`. */
  function ParseMonth(t: string): Option<Parsed<Rule>> {
    match ScanHu(t)
    case None => None
    case Some(a) =>
      if a.rest == [] || a.rest[0] != '.' then None else
      match ScanHu(a.rest[1..])
      case None => None
      case Some(b) =>
        if b.rest == [] || b.rest[0] != '.' then None else
        match ScanHu(b.rest[1..])
        case None => None
        case Some(c) =>
          if 1 <= a.value <= 12 && 1 <= b.value <= 5 && c.value <= 6
          then Some(Parsed(Rule(M, a.value, b.value, c.value, NO_OFFSET), c.rest)) else None
  }

  /** The time of `parse_rule`. */
  function ParseTime(t: string): Option<Parsed<Offset>> {
    if t != [] && t[0] != '/' && t[0] != ',' then None
    else if t == [] || t[0] == ',' then Some(Parsed(Offset(1, 2, 0, 0), t))
    else if |t| == 1 then None
    else
      var negative := t[1] == '-';
      var r := ScanTime(if negative then t[2..] else t[1..], 2, 0, 0);
      Some(Parsed(Offset(if negative then -1 else 1, r.h, r.m, r.s), r.rest))
  }

  /** `parse_rule`. */
  function ParseRule(s: string, start: bool): Option<Parsed<Rule>> {
    match ParseDay(if s != [] && s[0] == ',' then s[1..] else s, start)
    case None => None
    case Some(day) =>
      match ParseTime(day.rest)
      case None => None
      case Some(time) => Some(Parsed(day.value.(offset := time.value), time.rest))
  }

  /** The two rules of `str2tz`. */
  function ParseRules(info: Info, s: string, apart: Info -> bool): Result<Info> {
    match ParseRule(s, true)
    case None => Err(WrongSyntax)
    case Some(start) =>
      if !RuleOffsetOk(start.value.offset) then Err(DstTimeOutOfRange) else
      match ParseRule(start.rest, false)
      case None => Err(WrongSyntax)
      case Some(end) =>
        var all := info.(start := start.value, end := end.value, startSet := true);
        if !RuleOffsetOk(end.value.offset) then Err(DstTimeOutOfRange)
        else if !apart(all) then Err(DstTimeConflict)
        else Ok(all.(endSet := true))
  }

  /** `str2tz`; `apart` is its check that the two changes do not fall together. */
  function Str2tz(s: string, apart: Info -> bool): Result<Info> {
    match ParseName(s)
    case None => Err(InvalidStdName)
    case Some(name) =>
      ParseStandard(Info(Zone(name.value, NO_OFFSET), NO_ZONE, NO_RULE, NO_RULE, true, false, false, false),
        name.rest, apart)
  }

  /** The part of `str2tz` after the name of standard time. */
  function ParseStandard(named: Info, t: string, apart: Info -> bool): Result<Info> {
    if t == [] then Ok(named.(std := Zone(named.std.name, Offset(1, 0, 0, 0)))) else
    match ParseOffset(t, None)
    case None => Err(InvalidStdOffset)
    case Some(std) =>
      var known := named.(std := Zone(named.std.name, std.value));
      if std.rest == [] then Ok(known)
      else if std.rest[0] == ',' then ParseRules(known, std.rest, apart)
      else ParseOther(known, std.rest, apart)
  }

  /** The part of `str2tz` from the name of the other time on. */
  function ParseOther(known: Info, t: string, apart: Info -> bool): Result<Info> {
    match ParseName(t)
    case None => Err(InvalidDstName)
    case Some(other) =>
      match ParseOffset(other.rest, Some(known.std.offset))
      case None => Err(InvalidDstOffset)
      case Some(dst) => ParseRules(known.(dst := Zone(other.value, dst.value), dstSet := true), dst.rest, apart)
  }

  // ---------- writing ----------

  /** Hours, minutes and seconds as `tz_offset_to_string` writes them. */
  function TimeText(o: Offset): (text: string)
    requires NonNegative(o)
    ensures |text| > 0 && Digit(text[0])
  {
    if o.s == 0 && o.m == 0 then Decimal(o.h)
    else if o.s == 0 then Decimal2(o.h) + ":" + Decimal2(o.m)
    else Decimal2(o.h) + ":" + Decimal2(o.m) + ":" + Decimal2(o.s)
  }

  predicate Zero(o: Offset) {
    o.h == 0 && o.m == 0 && o.s == 0
  }

  /** `tz_offset_to_string`. */
  function OffsetText(o: Offset, reversed: bool, omitSign: bool): string
    requires NonNegative(o)
  {
    var negative := if reversed then o.sign > 0 else o.sign < 0;
    var sign := if negative then "-" else if omitSign then "" else "+";
    if Zero(o) && reversed then "" else sign + TimeText(o)
  }

  /** A name with a character that is not a letter is put in brackets. */
  function NameText(name: string): string {
    if Run(Letter, name) == |name| then name else "<" + name + ">"
  }

  /** `tz_zone_to_string`. */
  function ZoneText(z: Zone): string
    requires NonNegative(z.offset)
  {
    NameText(z.name) + OffsetText(z.offset, true, false)
  }

  predicate NonNegative(o: Offset) {
    o.h >= 0 && o.m >= 0 && o.s >= 0
  }

  function DayText(r: Rule): string
    requires r.m >= 0 && r.n >= 0 && r.d >= 0
  {
    match r.kind
    case J0 => Decimal(r.d)
    case J1 => "J" + Decimal(r.d)
    case M => "M" + Decimal(r.m) + "." + Decimal(r.n) + "." + Decimal(r.d)
  }

  /** `tz_rule_to_string`. */
  function RuleText(r: Rule): string
    requires r.m >= 0 && r.n >= 0 && r.d >= 0 && NonNegative(r.offset)
  {
    DayText(r) + "/" + OffsetText(r.offset, false, true)
  }

  predicate Printable(info: Info) {
    && NonNegative(info.std.offset) && NonNegative(info.dst.offset)
    && NonNegative(info.start.offset) && NonNegative(info.end.offset)
    && info.start.m >= 0 && info.start.n >= 0 && info.start.d >= 0
    && info.end.m >= 0 && info.end.n >= 0 && info.end.d >= 0
  }

  /** Offsets fit the 16 characters the writers have for them. */
  ghost predicate Short(info: Info)
    requires Printable(info)
  {
    && |OffsetText(info.std.offset, true, false)| < 16 && |OffsetText(info.dst.offset, true, false)| < 16
    && |OffsetText(info.start.offset, false, true)| < 16 && |OffsetText(info.end.offset, false, true)| < 16
    && '\0' !in info.std.name && '\0' !in info.dst.name
  }

  /** `tz_convert_string` into a buffer that is large enough. */
  function Convert(info: Info): Result<string>
    requires Printable(info)
  {
    if !info.stdSet then Err(Internal)
    else if info.dstSet && !info.startSet then Ok(ZoneText(info.std))
    else if !info.startSet then Ok(ZoneText(info.std))
    else if !info.dstSet then Err(EmptyDstInfo)
    else if !info.endSet then Err(Internal)
    else Ok(ZoneText(info.std) + ZoneText(info.dst) + "," + RuleText(info.start) + "," + RuleText(info.end))
  }
}
