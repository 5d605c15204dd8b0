/** tzset.c reading a time zone string into a `tz_info_t` and writing one into a buffer. */
module TimeZone {
  import opened TzText

  const NUL: char := '\0'

  /** `tz_info_t`. */
  class TzInfo {
    var std: Zone
    var dst: Zone
    var start: Rule
    var end: Rule
    var stdSet: bool
    var dstSet: bool
    var startSet: bool
    var endSet: bool

    constructor ()
    {
      std, dst, start, end := NO_ZONE, NO_ZONE, NO_RULE, NO_RULE;
      stdSet, dstSet, startSet, endSet := false, false, false, false;
    }

    function Value(): Info
      reads this
    {
      Info(std, dst, start, end, stdSet, dstSet, startSet, endSet)
    }
  }

  /** The character at `p`; a string ends with NUL. */
  function At(s: string, p: nat): char {
    if p < |s| then s[p] else NUL
  }

  /** tzset.c:295-297 and 306-309. */
  method Skip(s: string, p: nat, inName: bool) returns (q: nat)
    requires p <= |s| && NUL !in s
    ensures p <= q <= |s| && q == p + Run(if inName then NameChar else Letter, s[p..])
  {
    q := p;
    ghost var f := if inName then NameChar else Letter;
    while Letter(At(s, q)) || (inName && (Digit(At(s, q)) || At(s, q) == '+' || At(s, q) == '-'))
      invariant p <= q <= |s| && forall i | p <= i < q :: f(s[i])
      decreases |s| - q
    {
      q := q + 1;
    }
    RunIs(f, s[p..q], s[q..]);
    assert s[p..q] + s[q..] == s[p..];
  }

  /** `parse_tzname`; `p` is moved behind the name. */
  method ReadName(tz: TzInfo, s: string, p0: nat, which: int) returns (ok: bool, p: nat)
    requires p0 <= |s| && NUL !in s
    modifies tz`std, tz`dst
    ensures ok <==> ParseName(s[p0..]).Some?
    ensures ok ==> p0 <= p <= |s| && s[p..] == ParseName(s[p0..]).value.rest
    ensures ok ==> tz.std == if which == 0 then Zone(ParseName(s[p0..]).value.value, NO_OFFSET) else old(tz.std)
    ensures ok ==> tz.dst == if which == 0 then old(tz.dst) else Zone(ParseName(s[p0..]).value.value, NO_OFFSET)
    ensures !ok ==> p == p0 && tz.std == old(tz.std) && tz.dst == old(tz.dst)
  {
    hide Cut, Run;
    ghost var t := s[p0..];
    var start := p0;
    p := Skip(s, p0, false);
    var len := p - start;
    if len < 3 {
      p := p0;
      if At(s, p) != '<' {
        return false, p0;
      }
      p := p + 1;
      start := p;
      p := Skip(s, p, true);
      len := p - start;
      assert t[1..] == s[start..];
      if At(s, p) != '>' || len < 3 {
        return false, p0;
      }
      p := p + 1;
    }
    assert s[start..start + len] == s[start..][..len];
    var zone := Zone(Cut(s[start..start + len]), NO_OFFSET);
    if which == 0 {
      tz.std := zone;
    } else {
      tz.dst := zone;
    }
    ok := true;
  }

  /** tzset.c:338-341. */
  method ReadSign(s: string, p0: nat) returns (sign: int, p: nat)
    requires p0 <= |s| && NUL !in s
    ensures p0 <= p <= |s| && sign == (if Signed(s[p0..]) && s[p0..][0] == '-' then 1 else -1)
    ensures s[p..] == if Signed(s[p0..]) then s[p0..][1..] else s[p0..]
  {
    Tail(s, p0);
    sign, p := -1, p0;
    if At(s, p) == '-' || At(s, p) == '+' {
      sign := if s[p] == '-' then 1 else -1;
      p := p + 1;
    }
  }

  /** tzset.c:343-345. */
  method ScanOffset(s: string, p: nat, sign: int) returns (offset: Offset, count: nat, consumed: nat)
    requires p <= |s|
    ensures var r := ScanTime(s[p..], 0, 0, 0);
            && offset == Offset(sign, r.h, r.m, r.s) && count == r.count
            && p + consumed <= |s| && s[p + consumed..] == r.rest && (count == 0 ==> consumed == 0)
  {
    hide ScanTime;
    var time := ScanTime(s[p..], 0, 0, 0);
    ScanConsumes(s[p..], 0, 0, 0);
    offset, count, consumed := Offset(sign, time.h, time.m, time.s), time.count, |s[p..]| - |time.rest|;
  }

  /** The cases of `ParseOffset`. */
  lemma OffsetCases(t: string, std: Option<Offset>)
    ensures var sign, u := if Signed(t) && t[0] == '-' then 1 else -1, if Signed(t) then t[1..] else t;
            var r, o := ScanTime(u, 0, 0, 0), ParseOffset(t, std);
            var read := Offset(sign, r.h, r.m, r.s);
            if std == None && !Signed(t) && (t == [] || !Digit(t[0])) then o == None
            else if r.count > 0 then o == if ZoneOffsetOk(read) then Some(Parsed(read, r.rest)) else None
            else r.rest == u && o == Some(Parsed(if std == None then read else HourLater(std.value), u))
  {
    hide ScanTime, ZoneOffsetOk, HourLater;
    ScanConsumes(if Signed(t) then t[1..] else t, 0, 0, 0);
  }

  /** `parse_offset`. */
  method ReadOffset(tz: TzInfo, s: string, p0: nat, which: int) returns (ok: bool, p: nat)
    requires p0 <= |s| && NUL !in s
    modifies tz`std, tz`dst
    ensures var r := ParseOffset(s[p0..], if which == 0 then None else Some(old(tz.std.offset)));
            && (ok <==> r.Some?)
            && (ok ==> p0 <= p <= |s| && s[p..] == r.value.rest)
            && (ok ==> tz.std == if which == 0 then old(tz.std).(offset := r.value.value) else old(tz.std))
            && (ok ==> tz.dst == if which == 0 then old(tz.dst) else old(tz.dst).(offset := r.value.value))
  {
    hide ScanTime, HourLater, ZoneOffsetOk, ParseOffset;
    OffsetCases(s[p0..], if which == 0 then None else Some(tz.std.offset));
    p := p0;
    Tail(s, p);
    if which == 0 && (At(s, p) == NUL || (At(s, p) != '+' && At(s, p) != '-' && !Digit(At(s, p)))) {
      return false, p;
    }
    var sign;
    sign, p := ReadSign(s, p);
    var offset, count, consumed := ScanOffset(s, p, sign);
    if count > 0 {
      if !ZoneOffsetOk(offset) {
        return false, p;
      }
    } else if which != 0 {
      offset := HourLater(tz.std.offset);
    }
    if which == 0 {
      tz.std := Zone(tz.std.name, offset);
    } else {
      tz.dst := Zone(tz.dst.name, offset);
    }
    p := p + consumed;
    ok := true;
  }

  /** The text from `p` on. */
  lemma Tail(s: string, p: nat)
    requires p <= |s| && NUL !in s
    ensures s[p..] == [] <==> At(s, p) == NUL
    ensures s[p..] != [] ==> s[p..][0] == At(s, p) && p < |s| && s[p..][1..] == s[p + 1..]
    ensures forall rest | EndOf(rest, s[p..]) :: s[p + (|s[p..]| - |rest|)..] == rest
  {
    assert p < |s| ==> s[p] in s;
    forall rest | EndOf(rest, s[p..])
      ensures s[p + (|s[p..]| - |rest|)..] == rest
    {
    }
  }

  /** What is left of a text is an end of it. */
  predicate EndOf(rest: string, text: string) {
    |rest| <= |text| && rest == text[|text| - |rest|..]
  }

  lemma HuConsumes(text: string)
    ensures ScanHu(text).Some? ==> EndOf(ScanHu(text).value.rest, text)
  {
    hide Number, Run;
  }

  lemma EndOfTrans(a: string, b: string, c: string)
    requires EndOf(a, b) && EndOf(b, c)
    ensures EndOf(a, c)
  {
  }

  lemma ScanConsumes(text: string, h: int, m: int, s: int)
    ensures EndOf(ScanTime(text, h, m, s).rest, text)
    ensures ScanTime(text, h, m, s).count == 0 ==> ScanTime(text, h, m, s) == Time(0, h, m, s, text)
  {
    hide ScanHu;
    HuConsumes(text);
    if ScanHu(text).Some? {
      var a := ScanHu(text).value.rest;
      if a != [] {
        HuConsumes(a[1..]);
        if ScanHu(a[1..]).Some? {
          var b := ScanHu(a[1..]).value.rest;
          EndOfTrans(a[1..], a, text);
          EndOfTrans(b, a[1..], text);
          if b != [] {
            HuConsumes(b[1..]);
            if ScanHu(b[1..]).Some? {
              var c := ScanHu(b[1..]).value.rest;
              EndOfTrans(b[1..], b, text);
              EndOfTrans(c, b[1..], text);
            }
          }
        }
      }
    }
  }

  /** `strtoul` at a digit. */
  method ReadNumber(s: string, p: nat) returns (d: nat, end: nat)
    requires p < |s| && Digit(s[p])
    ensures var k := Run(Digit, s[p..]);
            && 0 < k && end == p + k <= |s| && d == Number(s[p..][..k]) && s[end..] == s[p..][k..]
  {
    hide Number;
    var k := Run(Digit, s[p..]);
    assert s[p..][0] == s[p];
    d, end := Number(s[p..][..k]), p + k;
  }

  /** tzset.c:373-410: the day of a rule that is all zero so far. */
  method ReadDay(rule0: Rule, s: string, p0: nat, start: bool) returns (ok: bool, rule: Rule, p: nat)
    requires p0 <= |s| && NUL !in s && rule0 == NO_RULE
    ensures var r := ParseDay(s[p0..], start);
            && (ok <==> r.Some?)
            && (ok ==> p0 <= p <= |s| && s[p..] == r.value.rest && rule == r.value.value)
  {
    hide ParseMonth, Number, Run;
    Tail(s, p0);
    rule, p := rule0, p0;
    if At(s, p) == 'J' || Digit(At(s, p)) {
      rule := rule.(kind := if At(s, p) == 'J' then J1 else J0);
      if rule.kind == J1 {
        p := p + 1;
        Tail(s, p);
        if !Digit(At(s, p)) {
          return false, rule, p;
        }
      }
      var d;
      d, p := ReadNumber(s, p);
      if d > 365 {
        return false, rule, p;
      }
      if rule.kind == J1 && d == 0 {
        return false, rule, p;
      }
      rule := rule.(d := d);
    } else if At(s, p) == 'M' {
      var month := ParseMonth(s[p + 1..]);
      if month == None {
        return false, rule, p;
      }
      MonthConsumes(s[p + 1..]);
      rule := month.value.value;
      p := |s| - |month.value.rest|;
    } else if At(s, p) == NUL {
      rule := if start then rule.(kind := M, m := 3, n := 2, d := 0) else rule.(kind := M, m := 11, n := 1, d := 0);
    } else {
      return false, rule, p;
    }
    ok := true;
  }

  lemma MonthConsumes(t: string)
    ensures ParseMonth(t).Some? ==> EndOf(ParseMonth(t).value.rest, t)
  {
    hide ScanHu;
    HuConsumes(t);
    if ScanHu(t).Some? {
      var a := ScanHu(t).value.rest;
      if a != [] {
        HuConsumes(a[1..]);
        if ScanHu(a[1..]).Some? {
          var b := ScanHu(a[1..]).value.rest;
          EndOfTrans(a[1..], a, t);
          EndOfTrans(b, a[1..], t);
          if b != [] {
            HuConsumes(b[1..]);
            if ScanHu(b[1..]).Some? {
              EndOfTrans(b[1..], b, t);
              EndOfTrans(ScanHu(b[1..]).value.rest, b[1..], t);
            }
          }
        }
      }
    }
  }

  /** tzset.c:412-435. */
  method ReadTime(s: string, p0: nat) returns (ok: bool, offset: Offset, p: nat)
    requires p0 <= |s| && NUL !in s
    ensures var r := ParseTime(s[p0..]);
            && (ok <==> r.Some?)
            && (ok ==> p0 <= p <= |s| && s[p..] == r.value.rest && offset == r.value.value)
  {
    hide ScanTime;
    Tail(s, p0);
    p, offset := p0, Offset(1, 2, 0, 0);
    if At(s, p) != NUL && At(s, p) != '/' && At(s, p) != ',' {
      return false, offset, p;
    } else if At(s, p) == '/' {
      p := p + 1;
      Tail(s, p);
      if At(s, p) == NUL {
        return false, offset, p;
      }
      var negative := At(s, p) == '-';
      if negative {
        p := p + 1;
      }
      assert s[p..] == if negative then s[p0..][2..] else s[p0..][1..];
      var time := ScanTime(s[p..], 2, 0, 0);
      ScanConsumes(s[p..], 2, 0, 0);
      offset := Offset(if negative then -1 else 1, time.h, time.m, time.s);
      p := |s| - |time.rest|;
    }
    ok := true;
  }

  /** `parse_rule`, into a rule that is all zero. */
  method ReadRule(tz: TzInfo, s: string, p0: nat, which: int) returns (ok: bool, p: nat)
    requires p0 <= |s| && NUL !in s && (if which == 0 then tz.start else tz.end) == NO_RULE
    modifies tz`start, tz`end
    ensures var r := ParseRule(s[p0..], which == 0);
            && (ok <==> r.Some?)
            && (ok ==> p0 <= p <= |s| && s[p..] == r.value.rest)
            && (ok ==> tz.start == if which == 0 then r.value.value else old(tz.start))
            && (ok ==> tz.end == if which == 0 then old(tz.end) else r.value.value)
  {
    hide ParseDay, ParseTime;
    p := p0;
    Tail(s, p);
    if At(s, p) == ',' {
      p := p + 1;
    }
    var rule, offset;
    ok, rule, p := ReadDay(if which == 0 then tz.start else tz.end, s, p, which == 0);
    if !ok {
      return;
    }
    ok, offset, p := ReadTime(s, p);
    if !ok {
      return;
    }
    rule := rule.(offset := offset);
    if which == 0 {
      tz.start := rule;
    } else {
      tz.end := rule;
    }
  }

  /** The outcome of `str2tz` in `tz` is `result`. */
  ghost predicate Outcome(tz: TzInfo, err: Option<Error>, result: Result<Info>)
    reads tz
  {
    match result
    case Ok(info) => err == None && tz.Value() == info
    case Err(e) => err == Some(e)
  }

  /** tzset.c:479-497. */
  method ReadRules(tz: TzInfo, s: string, p0: nat, apart: Info -> bool) returns (err: Option<Error>)
    requires p0 <= |s| && NUL !in s && tz.start == tz.end == NO_RULE
    modifies tz
    ensures Outcome(tz, err, ParseRules(old(tz.Value()), s[p0..], apart))
  {
    hide ParseRule;
    var ok, p := ReadRule(tz, s, p0, 0);
    if !ok {
      return Some(WrongSyntax);
    }
    if !RuleOffsetOk(tz.start.offset) {
      return Some(DstTimeOutOfRange);
    }
    tz.startSet := true;
    ok, p := ReadRule(tz, s, p, 1);
    if !ok {
      return Some(WrongSyntax);
    }
    if !RuleOffsetOk(tz.end.offset) {
      return Some(DstTimeOutOfRange);
    } else if !apart(tz.Value()) {
      return Some(DstTimeConflict);
    }
    tz.endSet := true;
    err := None;
  }

  /** `str2tz`. */
  method Read(tz: TzInfo?, str: Option<string>, apart: Info -> bool) returns (err: Option<Error>)
    requires str.Some? ==> NUL !in str.value
    modifies tz
    ensures tz == null || str == None ==> err == Some(InvalidParameter)
    ensures tz != null && str.Some? ==> Outcome(tz, err, Str2tz(str.value, apart))
  {
    if tz == null || str == None {
      return Some(InvalidParameter);
    }
    hide ParseName, ParseStandard;
    var s := str.value;
    tz.std, tz.dst, tz.start, tz.end := NO_ZONE, NO_ZONE, NO_RULE, NO_RULE;
    tz.stdSet, tz.dstSet, tz.startSet, tz.endSet := false, false, false, false;
    assert s[0..] == s;
    var ok, p := ReadName(tz, s, 0, 0);
    if !ok {
      return Some(InvalidStdName);
    }
    tz.stdSet := true;
    err := ReadStandard(tz, s, p, apart);
  }

  /** tzset.c:453-497. */
  method ReadStandard(tz: TzInfo, s: string, p0: nat, apart: Info -> bool) returns (err: Option<Error>)
    requires p0 <= |s| && NUL !in s && tz.start == tz.end == NO_RULE
    modifies tz
    ensures Outcome(tz, err, ParseStandard(old(tz.Value()), s[p0..], apart))
  {
    hide ParseOffset, ParseRules, ParseOther;
    Tail(s, p0);
    if At(s, p0) == NUL {
      tz.std := Zone(tz.std.name, Offset(1, 0, 0, 0));
      return None;
    }
    var ok, p := ReadOffset(tz, s, p0, 0);
    if !ok {
      return Some(InvalidStdOffset);
    }
    Tail(s, p);
    if At(s, p) == NUL {
      return None;
    }
    if At(s, p) != ',' {
      err := ReadOther(tz, s, p, apart);
    } else {
      err := ReadRules(tz, s, p, apart);
    }
  }

  /** tzset.c:468-497. */
  method ReadOther(tz: TzInfo, s: string, p0: nat, apart: Info -> bool) returns (err: Option<Error>)
    requires p0 <= |s| && NUL !in s && tz.start == tz.end == NO_RULE
    modifies tz
    ensures Outcome(tz, err, ParseOther(old(tz.Value()), s[p0..], apart))
  {
    hide ParseName, ParseOffset, ParseRules;
    var ok, p := ReadName(tz, s, p0, 1);
    if !ok {
      return Some(InvalidDstName);
    }
    ok, p := ReadOffset(tz, s, p, 1);
    if !ok {
      return Some(InvalidDstOffset);
    }
    tz.dstSet := true;
    err := ReadRules(tz, s, p, apart);
  }

  // ---------- writing ----------

  /** `snprintf(str, n, "%s", text)` with room for all of it. */
  method Put(str: array<char>, at: nat, text: string) returns (ret: nat)
    requires at + |text| < str.Length
    modifies str
    ensures ret == |text| && str[..at + ret] == old(str[..at]) + text && str[at + ret] == NUL
  {
    ret := 0;
    while ret < |text|
      invariant ret <= |text| && str[..at + ret] == old(str[..at]) + text[..ret]
    {
      str[at + ret] := text[ret];
      ret := ret + 1;
    }
    str[at + ret] := NUL;
  }

  /** `tz_offset_to_string`. */
  method WriteOffset(str: array<char>, at: nat, off: Offset, r: bool, omitSign: bool) returns (ret: nat)
    requires NonNegative(off) && at + |OffsetText(off, r, omitSign)| < str.Length
    modifies str
    ensures var text := OffsetText(off, r, omitSign);
            ret == |text| && str[..at + ret] == old(str[..at]) + text && str[at + ret] == NUL
  {
    var idx := if r then (if off.sign > 0 then 1 else 0) else if off.sign < 0 then 1 else 0;
    if omitSign && idx == 0 {
      idx := 2;
    }
    var sign := if idx == 0 then "+" else if idx == 1 then "-" else "";
    hide Decimal, Decimal2;
    if off.s == 0 {
      if off.m == 0 {
        if off.h == 0 && r {
          str[at] := NUL;
          ret := 0;
        } else {
          ret := Put(str, at, sign + Decimal(off.h));
        }
      } else {
        ret := Put(str, at, sign + (Decimal2(off.h) + ":" + Decimal2(off.m)));
      }
    } else {
      ret := Put(str, at, sign + (Decimal2(off.h) + ":" + Decimal2(off.m) + ":" + Decimal2(off.s)));
    }
  }

  /** `tz_zone_to_string`, which has the offset written to a buffer of its own first. */
  method WriteZone(str: array<char>, at: nat, zone: Zone) returns (ret: nat)
    requires NonNegative(zone.offset) && |OffsetText(zone.offset, true, false)| < 16 && NUL !in zone.name
    requires at + |ZoneText(zone)| < str.Length
    modifies str
    ensures ret == |ZoneText(zone)| && str[..at + ret] == old(str[..at]) + ZoneText(zone) && str[at + ret] == NUL
  {
    hide OffsetText;
    var buf := new char[16];
    var off := WriteOffset(buf, 0, zone.offset, true, false);
    assert buf[..off] == OffsetText(zone.offset, true, false);
    var i, plain := 0, true;
    while At(zone.name, i) != NUL
      invariant i <= |zone.name| && plain && forall j | 0 <= j < i :: Letter(zone.name[j])
      decreases |zone.name| - i
    {
      if !Letter(zone.name[i]) {
        plain := false;
        break;
      }
      i := i + 1;
    }
    PlainIs(zone.name, i, plain);
    ret := Put(str, at, if plain then zone.name + buf[..off] else "<" + zone.name + ">" + buf[..off]);
  }

  lemma PlainIs(name: string, i: nat, plain: bool)
    requires i <= |name| && (forall j | 0 <= j < i :: Letter(name[j])) && NUL !in name
    requires if plain then At(name, i) == NUL else i < |name| && !Letter(name[i])
    ensures plain <==> Run(Letter, name) == |name|
  {
    RunIs(Letter, name[..i], name[i..]);
    assert name[..i] + name[i..] == name;
    assert i < |name| ==> name[i] in name;
  }

  /** `tz_rule_to_string`. */
  method WriteRule(str: array<char>, at: nat, rule: Rule) returns (ret: nat)
    requires rule.m >= 0 && rule.n >= 0 && rule.d >= 0 && NonNegative(rule.offset)
               && |OffsetText(rule.offset, false, true)| < 16
    requires at + |RuleText(rule)| < str.Length
    modifies str
    ensures ret == |RuleText(rule)| && str[..at + ret] == old(str[..at]) + RuleText(rule) && str[at + ret] == NUL
  {
    hide OffsetText, Decimal;
    ret := Put(str, at, DayText(rule));
    var buf := new char[17];
    buf[0] := '/';
    var off := WriteOffset(buf, 1, rule.offset, false, true);
    OffsetFollows(rule.offset);
    ghost var text := "/" + OffsetText(rule.offset, false, true);
    assert buf[..off + 1] == text;
    if off != 0 {
      var more := Put(str, at + ret, buf[..off + 1]);
      ret := ret + more;
    }
  }

  lemma OffsetFollows(o: Offset)
    requires NonNegative(o)
    ensures OffsetText(o, false, true) != []
  {
    assert "" + TimeText(o) == TimeText(o);
  }

  /** `tz_convert_string` with room for all that might be written. */
  method Write(str: array?<char>, tz: TzInfo?) returns (err: Option<Error>)
    requires tz != null ==> Printable(tz.Value()) && Short(tz.Value())
    requires str != null && tz != null ==>
               |ZoneText(tz.std)| + |ZoneText(tz.dst)| + |RuleText(tz.start)| + |RuleText(tz.end)| + 2 < str.Length
    modifies str
    ensures str == null || tz == null ==> err == Some(InvalidParameter)
    ensures str != null && tz != null ==> Written(str, err, Convert(tz.Value()))
  {
    if str == null || tz == null {
      return Some(InvalidParameter);
    }
    hide *;
    err := WriteInfo(str, tz);
  }

  /** The text of `info`, with its NUL, is in `str`, unless it has none. */
  ghost predicate Written(str: array<char>, err: Option<Error>, result: Result<string>)
    reads str
  {
    match result
    case Ok(text) => err == None && |text| < str.Length && str[..|text|] == text && str[|text|] == NUL
    case Err(e) => err == Some(e)
  }

  method WriteInfo(str: array<char>, tz: TzInfo) returns (err: Option<Error>)
    requires Printable(tz.Value()) && Short(tz.Value())
    requires |ZoneText(tz.std)| + |ZoneText(tz.dst)| + |RuleText(tz.start)| + |RuleText(tz.end)| + 2 < str.Length
    modifies str
    ensures Written(str, err, Convert(tz.Value()))
  {
    hide ZoneText, RuleText, OffsetText, Convert;
    ConvertStandard(tz.Value());
    if !tz.stdSet {
      return Some(Internal);
    }
    var at := WriteZone(str, 0, tz.std);
    assert str[..at] == ZoneText(tz.std);
    if !tz.startSet {
      return None;
    }
    err := WriteOther(str, at, tz);
  }

  lemma ConvertStandard(info: Info)
    requires Printable(info)
    ensures !info.stdSet ==> Convert(info) == Err(Internal)
    ensures info.stdSet && !info.startSet ==> Convert(info) == Ok(ZoneText(info.std))
  {
  }

  /** tzset.c:624-673, when there are rules. */
  method WriteOther(str: array<char>, at0: nat, tz: TzInfo) returns (err: Option<Error>)
    requires Printable(tz.Value()) && Short(tz.Value()) && tz.stdSet && tz.startSet && at0 == |ZoneText(tz.std)|
    requires |ZoneText(tz.std)| + |ZoneText(tz.dst)| + |RuleText(tz.start)| + |RuleText(tz.end)| + 2 < str.Length
    requires str[..at0] == ZoneText(tz.std)
    modifies str
    ensures Written(str, err, Convert(tz.Value()))
  {
    hide ZoneText, RuleText, OffsetText;
    if !tz.dstSet {
      return Some(EmptyDstInfo);
    }
    var ret := WriteZone(str, at0, tz.dst);
    var at := WriteNext(str, at0 + ret, tz.start);
    if !tz.endSet {
      return Some(Internal);
    }
    at := WriteNext(str, at, tz.end);
    err := None;
  }

  /** `*str++ = ','` and a rule. */
  method WriteNext(str: array<char>, at: nat, rule: Rule) returns (end: nat)
    requires rule.m >= 0 && rule.n >= 0 && rule.d >= 0 && NonNegative(rule.offset)
               && |OffsetText(rule.offset, false, true)| < 16
    requires at + 1 + |RuleText(rule)| < str.Length
    modifies str
    ensures end == at + 1 + |RuleText(rule)| && str[..end] == old(str[..at]) + "," + RuleText(rule) && str[end] == NUL
  {
    hide RuleText, OffsetText;
    str[at] := ',';
    assert str[..at + 1] == old(str[..at]) + ",";
    end := WriteRule(str, at + 1, rule);
    end := at + 1 + end;
  }
}
