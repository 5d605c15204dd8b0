/** Which time zone strings survive being read, written and read again. */
module TzRoundTrip {
  import opened TzText

  // ---------- what reading can give ----------

  ghost predicate SoundName(name: string) {
    3 <= |name| <= 17 && forall c | c in name :: NameChar(c)
  }

  ghost predicate SoundOffset(o: Offset) {
    (o.sign == 1 || o.sign == -1) && NonNegative(o) && ZoneOffsetOk(o)
  }

  ghost predicate SoundZone(z: Zone) {
    SoundName(z.name) && SoundOffset(z.offset)
  }

  ghost predicate SoundDay(r: Rule) {
    match r.kind
    case J0 => r.m == r.n == 0 && 0 <= r.d <= 365
    case J1 => r.m == r.n == 0 && 1 <= r.d <= 365
    case M => 1 <= r.m <= 12 && 1 <= r.n <= 5 && 0 <= r.d <= 6
  }

  ghost predicate SoundRule(r: Rule) {
    SoundDay(r) && r.offset.sign == 1 && NonNegative(r.offset) && RuleOffsetOk(r.offset)
  }

  /** Standard time only, standard time and rules, or everything. */
  ghost predicate Sound(info: Info) {
    && info.stdSet && SoundZone(info.std) && (info.startSet <==> info.endSet)
    && (if info.dstSet then info.startSet && SoundZone(info.dst) else info.dst == NO_ZONE)
    && (if info.startSet then SoundRule(info.start) && SoundRule(info.end) else info.start == info.end == NO_RULE)
  }

  lemma NameSound(s: string)
    ensures ParseName(s).Some? ==> SoundName(ParseName(s).value.value)
  {
    hide Letter, Digit;
  }

  lemma ScanSound(s: string)
    ensures ScanHu(s).Some? ==> 0 <= ScanHu(s).value.value < 0x1_0000
  {
  }

  lemma TimeSound(t: string, h: nat)
    ensures var r := ScanTime(t, h, 0, 0);
            r.h >= 0 && r.m >= 0 && r.s >= 0 && (r.count == 0 ==> r.h == h && r.m == r.s == 0)
  {
    ScanSound(t);
    if ScanHu(t).Some? {
      var r := ScanHu(t).value.rest;
      if r != [] {
        ScanSound(r[1..]);
        if ScanHu(r[1..]).Some? && ScanHu(r[1..]).value.rest != [] {
          ScanSound(ScanHu(r[1..]).value.rest[1..]);
        }
      }
    }
    hide ScanHu;
  }

  lemma FromSecondsSound(n: int)
    ensures var o := FromSeconds(n);
            && NonNegative(o) && o.m <= 59 && o.s <= 59 && Seconds(o) == n
            && o.sign == if n > 0 then 1 else -1
  {
  }

  lemma OffsetSound(s: string, std: Option<Offset>)
    requires std.Some? ==> SoundOffset(std.value)
    ensures ParseOffset(s, std).Some? ==> SoundOffset(ParseOffset(s, std).value.value)
  {
    hide ScanTime;
    TimeSound(if Signed(s) then s[1..] else s, 0);
    if std.Some? {
      FromSecondsSound(Seconds(std.value) + 3600);
    }
  }

  lemma DaySound(t: string, start: bool)
    ensures ParseDay(t, start).Some? ==> SoundDay(ParseDay(t, start).value.value)
  {
    hide ParseMonth, Number;
    if t != [] {
      MonthSound(t[1..]);
    }
  }

  lemma MonthSound(t: string)
    ensures ParseMonth(t).Some? ==> var r := ParseMonth(t).value.value; r.kind == M && SoundDay(r)
  {
    hide ScanHu;
    ScanSound(t);
    if ScanHu(t).Some? {
      var a := ScanHu(t).value;
      if a.rest != [] && ScanHu(a.rest[1..]).Some? {
        var b := ScanHu(a.rest[1..]).value;
        if b.rest != [] {
          ScanSound(b.rest[1..]);
        }
      }
    }
  }

  lemma RuleSound(s: string, start: bool)
    ensures ParseRule(s, start).Some? ==>
              var r := ParseRule(s, start).value.value;
              SoundDay(r) && NonNegative(r.offset) && (r.offset.sign == 1 || r.offset.sign == -1)
  {
    hide ParseDay, ScanTime;
    var t := if s != [] && s[0] == ',' then s[1..] else s;
    DaySound(t, start);
    if ParseDay(t, start).Some? {
      var u := ParseDay(t, start).value.rest;
      if |u| > 1 {
        TimeSound(if u[1] == '-' then u[2..] else u[1..], 2);
      }
    }
  }

  lemma RulesSound(info: Info, s: string, apart: Info -> bool)
    requires info.stdSet && SoundZone(info.std) && (if info.dstSet then SoundZone(info.dst) else info.dst == NO_ZONE)
    ensures var r := ParseRules(info, s, apart);
            r.Ok? ==>
              && Sound(r.value) && r.value.startSet && apart(r.value.(endSet := info.endSet))
              && r.value.std == info.std && r.value.dst == info.dst && r.value.dstSet == info.dstSet
  {
    hide ParseRule, SoundDay;
    RuleSound(s, true);
    if ParseRule(s, true).Some? {
      RuleSound(ParseRule(s, true).value.rest, false);
    }
  }

  /** Whatever is read is sound, and its rules have passed the last check. */
  lemma ReadSound(s: string, apart: Info -> bool)
    ensures var r := Str2tz(s, apart);
            r.Ok? ==> Sound(r.value) && (r.value.startSet ==> apart(r.value.(endSet := false)))
  {
    hide ParseName, ParseOffset, ParseRules, SoundName, SoundOffset, SoundRule;
    NameSound(s);
    if ParseName(s).Some? {
      var name := ParseName(s).value;
      ZeroOffsetSound();
      OffsetSound(name.rest, None);
      if ParseOffset(name.rest, None).Some? {
        var std := ParseOffset(name.rest, None).value;
        var known := Info(Zone(name.value, std.value), NO_ZONE, NO_RULE, NO_RULE, true, false, false, false);
        RulesSound(known, std.rest, apart);
        NameSound(std.rest);
        if ParseName(std.rest).Some? {
          var other := ParseName(std.rest).value;
          OffsetSound(other.rest, Some(std.value));
          if ParseOffset(other.rest, Some(std.value)).Some? {
            var dst := ParseOffset(other.rest, Some(std.value)).value;
            RulesSound(known.(dst := Zone(other.value, dst.value), dstSet := true), dst.rest, apart);
          }
        }
      }
    }
  }

  lemma ZeroOffsetSound()
    ensures SoundOffset(Offset(1, 0, 0, 0))
  {
  }

  // ---------- reading what was written ----------

  /** What follows an offset does not look like part of it. */
  ghost predicate Stops(rest: string) {
    rest == [] || (!Digit(rest[0]) && rest[0] != ':')
  }

  lemma NameBack(name: string, rest: string)
    requires SoundName(name) && (rest == [] || !Letter(rest[0]))
    ensures ParseName(NameText(name) + rest) == Some(Parsed(name, rest))
  {
    if Run(Letter, name) == |name| {
      forall c | c in name
        ensures Letter(c)
      {
      }
      RunIs(Letter, name, rest);
    } else {
      QuotedBack(name, rest);
    }
  }

  lemma QuotedBack(name: string, rest: string)
    requires SoundName(name)
    ensures ParseName("<" + name + ">" + rest) == Some(Parsed(name, rest))
  {
    var s, t := "<" + name + ">" + rest, name + (">" + rest);
    assert s[0] == '<' && s[1..] == t;
    RunIs(NameChar, name, ">" + rest);
    assert t[|name| + 1..] == (">" + rest)[1..] == rest;
  }

  lemma FieldBack(d: string, n: nat, rest: string)
    requires d == Decimal(n) || d == Decimal2(n)
    requires n < 0x1_0000 && (rest == [] || !Digit(rest[0]))
    ensures ScanHu(d + rest) == Some(Scan(n, rest))
  {
    NumberOfDecimal(n);
    NumberOfDecimal2(n);
    ScanDigits(d, n, rest);
  }

  /** The fields of a time come back. */
  lemma TimeBack(o: Offset, rest: string, h: int)
    requires NonNegative(o) && o.h < 0x1_0000 && o.m <= 59 && o.s <= 59 && Stops(rest)
    ensures var r := ScanTime(TimeText(o) + rest, h, 0, 0);
            r.count > 0 && r.h == o.h && r.m == o.m && r.s == o.s && r.rest == rest
  {
    hide ScanHu, Decimal, Decimal2;
    if o.s == 0 && o.m == 0 {
      FieldBack(Decimal(o.h), o.h, rest);
    } else if o.s == 0 {
      var a, b := Decimal2(o.h), Decimal2(o.m);
      TwoFields(a, b, rest);
      FieldBack(a, o.h, ":" + (b + rest));
      FieldBack(b, o.m, rest);
    } else {
      var a, b, c := Decimal2(o.h), Decimal2(o.m), Decimal2(o.s);
      ThreeFields(a, b, c, rest);
      FieldBack(a, o.h, ":" + (b + (":" + (c + rest))));
      FieldBack(b, o.m, ":" + (c + rest));
      FieldBack(c, o.s, rest);
    }
  }

  lemma TwoFields(a: string, b: string, rest: string)
    ensures a + ":" + b + rest == a + (":" + (b + rest))
    ensures (":" + (b + rest))[1..] == b + rest
  {
  }

  lemma ThreeFields(a: string, b: string, c: string, rest: string)
    ensures a + ":" + b + ":" + c + rest == a + (":" + (b + (":" + (c + rest))))
    ensures (":" + (b + (":" + (c + rest))))[1..] == b + (":" + (c + rest))
    ensures (":" + (c + rest))[1..] == c + rest
  {
  }

  lemma SmallHours(o: Offset)
    requires SoundOffset(o)
    ensures o.h <= 14 && o.m <= 59 && o.s <= 59
  {
  }

  /** The offset of a zone comes back, unless it is zero. */
  lemma OffsetBack(o: Offset, std: Option<Offset>, rest: string)
    requires SoundOffset(o) && !Zero(o) && Stops(rest)
    ensures ParseOffset(OffsetText(o, true, false) + rest, std) == Some(Parsed(o, rest))
    ensures Signed(OffsetText(o, true, false) + rest)
  {
    hide ScanTime, TimeText, OffsetText, ZoneOffsetOk;
    SmallHours(o);
    TimeBack(o, rest, 0);
    SignedTime(o, rest);
  }

  lemma SignedTime(o: Offset, rest: string)
    requires NonNegative(o) && !Zero(o)
    ensures var s := OffsetText(o, true, false) + rest;
            s != [] && s[0] == (if o.sign > 0 then '-' else '+') && s[1..] == TimeText(o) + rest
  {
    hide Decimal, Decimal2;
    var sign := if o.sign > 0 then "-" else "+";
    assert OffsetText(o, true, false) + rest == sign + (TimeText(o) + rest);
  }

  lemma MonthBack(r: Rule, rest: string)
    requires SoundDay(r) && r.kind == M && (rest == [] || !Digit(rest[0]))
    ensures ParseMonth(Decimal(r.m) + "." + Decimal(r.n) + "." + Decimal(r.d) + rest)
         == Some(Parsed(r.(offset := NO_OFFSET), rest))
  {
    hide ScanHu, Decimal;
    var a, b, c := Decimal(r.m), Decimal(r.n), Decimal(r.d);
    assert a + "." + b + "." + c + rest == a + ("." + (b + ("." + (c + rest))));
    assert ("." + (b + ("." + (c + rest))))[1..] == b + ("." + (c + rest));
    assert ("." + (c + rest))[1..] == c + rest;
    FieldBack(a, r.m, "." + (b + ("." + (c + rest))));
    FieldBack(b, r.n, "." + (c + rest));
    FieldBack(c, r.d, rest);
  }

  lemma DayBack(r: Rule, start: bool, rest: string)
    requires SoundDay(r) && (rest == [] || !Digit(rest[0]))
    ensures ParseDay(DayText(r) + rest, start) == Some(Parsed(r.(offset := NO_OFFSET), rest))
    ensures DayText(r) != [] && DayText(r)[0] != ','
  {
    match r.kind
    case J0 => JulianBack(r, start, rest);
    case J1 => JulianBack(r, start, rest);
    case M =>
      MonthBack(r, rest);
      AfterM(Decimal(r.m), Decimal(r.n), Decimal(r.d), rest);
      hide ParseMonth, Decimal, ScanHu;
  }

  lemma AfterM(a: string, b: string, c: string, rest: string)
    ensures var t := "M" + a + "." + b + "." + c + rest;
            t != [] && t[0] == 'M' && t[1..] == a + "." + b + "." + c + rest
  {
  }

  lemma JulianBack(r: Rule, start: bool, rest: string)
    requires SoundDay(r) && r.kind != M && (rest == [] || !Digit(rest[0]))
    ensures ParseDay(DayText(r) + rest, start) == Some(Parsed(r.(offset := NO_OFFSET), rest))
    ensures DayText(r) != [] && DayText(r)[0] != ','
  {
    hide Number, ParseMonth, Run;
    var t, d := DayText(r) + rest, Decimal(r.d);
    NumberOfDecimal(r.d);
    RunIs(Digit, d, rest);
    assert (d + rest)[0] == d[0] && d[0] in d;
    if r.kind == J1 {
      assert t[0] == 'J' && t[1..] == d + rest;
    }
    hide Decimal;
  }

  lemma TimeOfDayBack(o: Offset, rest: string)
    requires RuleOffsetOk(o) && NonNegative(o) && o.sign == 1 && Stops(rest)
    ensures ParseTime("/" + OffsetText(o, false, true) + rest) == Some(Parsed(o, rest))
  {
    hide ScanTime, TimeText;
    TimeBack(o, rest, 2);
    SlashTime(o, rest);
  }

  lemma SlashTime(o: Offset, rest: string)
    requires NonNegative(o) && o.sign == 1
    ensures var t := "/" + OffsetText(o, false, true) + rest;
            && |t| > 1 && t[0] == '/' && t[1..] == TimeText(o) + rest && t[1] == TimeText(o)[0] && t[1] != '-'
  {
    hide Decimal, Decimal2;
    assert "" + TimeText(o) == TimeText(o);
  }

  /** A rule comes back. */
  lemma RuleBack(r: Rule, start: bool, rest: string)
    requires SoundRule(r) && (rest == [] || rest[0] == ',')
    ensures ParseRule("," + RuleText(r) + rest, start) == Some(Parsed(r, rest))
  {
    hide ParseDay, ParseTime, DayText, OffsetText;
    var time := "/" + OffsetText(r.offset, false, true) + rest;
    var s := "," + RuleText(r) + rest;
    assert s[0] == ',' && s[1..] == DayText(r) + time;
    DayBack(r, start, time);
    TimeOfDayBack(r.offset, rest);
  }

  lemma RulesBack(info: Info, start: Rule, end: Rule, apart: Info -> bool)
    requires SoundRule(start) && SoundRule(end)
    ensures var all := info.(start := start, end := end, startSet := true);
            ParseRules(info, "," + RuleText(start) + "," + RuleText(end), apart) ==
            if apart(all) then Ok(all.(endSet := true)) else Err(DstTimeConflict)
  {
    hide ParseRule, RuleText;
    var tail := "," + RuleText(end) + "";
    assert "," + RuleText(start) + "," + RuleText(end) == "," + RuleText(start) + tail;
    assert tail == "," + RuleText(end);
    RuleBack(start, true, tail);
    RuleBack(end, false, "");
  }

  // ---------- the whole string ----------

  /** What is written, and read again. */
  ghost predicate Restored(info: Info, apart: Info -> bool)
    requires Printable(info)
  {
    Convert(info).Ok? && Str2tz(Convert(info).value, apart) == Ok(info)
  }

  /** Standard time alone must not be zero west of Greenwich. With rules there must be a name
      for the other time, standard time must not be zero, and the other time neither, except where
      zero is the default, an hour ahead of standard time. */
  ghost predicate Restorable(info: Info) {
    var std, dst := info.std.offset, info.dst.offset;
    if !info.startSet then !Zero(std) || std.sign == 1
    else info.dstSet && !Zero(std) && (!Zero(dst) || (std == Offset(-1, 1, 0, 0) && dst.sign == -1))
  }

  lemma SoundPrints(info: Info)
    requires Sound(info)
    ensures Printable(info)
  {
  }

  /** What is read can be written in the buffers of the writers. */
  lemma SoundShort(info: Info)
    requires Sound(info)
    ensures Printable(info) && Short(info)
  {
    SoundPrints(info);
    ShortOffset(info.std.offset);
    ShortOffset(info.dst.offset);
    ShortOffset(info.start.offset);
    ShortOffset(info.end.offset);
    hide OffsetText;
  }

  lemma ShortOffset(o: Offset)
    requires NonNegative(o) && o.h < 100 && o.m < 100 && o.s < 100
    ensures |OffsetText(o, true, false)| < 16 && |OffsetText(o, false, true)| < 16
  {
    TwoDigits(o.h);
    TwoDigits(o.m);
    TwoDigits(o.s);
    hide Decimal, Decimal2;
  }

  lemma TwoDigits(n: nat)
    requires n < 100
    ensures |Decimal(n)| <= 2 && |Decimal2(n)| == 2
  {
  }

  lemma NameStarts(z: Zone, rest: string)
    requires SoundName(z.name)
    ensures var s := NameText(z.name) + rest; s != [] && (Letter(s[0]) || s[0] == '<')
  {
    assert z.name[0] in z.name;
    if Run(Letter, z.name) == |z.name| {
      assert (NameText(z.name) + rest)[0] == z.name[0];
    } else {
      assert (NameText(z.name) + rest)[0] == '<';
    }
  }

  /** A zone that is not zero comes back. */
  lemma ZoneBack(z: Zone, std: Option<Offset>, rest: string)
    requires SoundZone(z) && !Zero(z.offset) && Stops(rest)
    ensures var s := OffsetText(z.offset, true, false) + rest;
            && ParseName(ZoneText(z) + rest) == Some(Parsed(z.name, s))
            && ParseOffset(s, std) == Some(Parsed(z.offset, rest)) && s != []
  {
    hide ParseName, ParseOffset, NameText, OffsetText;
    var s := OffsetText(z.offset, true, false) + rest;
    OffsetBack(z.offset, std, rest);
    NameBack(z.name, s);
    assert ZoneText(z) + rest == NameText(z.name) + s;
  }

  lemma StandardOnly(info: Info, apart: Info -> bool)
    requires Sound(info) && !info.startSet
    ensures Printable(info) && (Restored(info, apart) <==> Restorable(info))
  {
    hide ParseName, ParseOffset, NameText, TimeText, SoundName;
    if Zero(info.std.offset) {
      NameBack(info.std.name, []);
      assert ZoneText(info.std) == NameText(info.std.name) + [];
      assert info.std.offset == Offset(info.std.offset.sign, 0, 0, 0);
    } else {
      ZoneBack(info.std, None, []);
      assert ZoneText(info.std) + [] == ZoneText(info.std);
    }
  }

  /** The text of the rules. */
  function RulesText(info: Info): string
    requires Printable(info)
  {
    "," + RuleText(info.start) + "," + RuleText(info.end)
  }

  lemma AllText(info: Info)
    requires Sound(info) && info.startSet && info.dstSet
    ensures Printable(info)
    ensures Convert(info) == Ok(ZoneText(info.std) + (ZoneText(info.dst) + RulesText(info)))
  {
    hide ZoneText, RuleText, SoundZone, SoundRule;
    SoundPrints(info);
    Regrouped(ZoneText(info.std), ZoneText(info.dst), RuleText(info.start), RuleText(info.end));
  }

  lemma Regrouped(a: string, b: string, c: string, d: string)
    ensures a + b + "," + c + "," + d == a + (b + ("," + c + "," + d))
  {
  }

  /** Standard time alone. */
  function OnlyStandard(std: Zone): Info {
    Info(std, NO_ZONE, NO_RULE, NO_RULE, true, false, false, false)
  }

  lemma StandardBack(std: Zone, t: string, apart: Info -> bool)
    requires SoundZone(std) && !Zero(std.offset) && t != [] && (Letter(t[0]) || t[0] == '<')
    ensures Str2tz(ZoneText(std) + t, apart) == ParseOther(OnlyStandard(std), t, apart)
  {
    hide ParseName, ParseOffset, ParseRules, ZoneText, OffsetText, SoundZone;
    ZoneBack(std, None, t);
  }

  /** The other time, written out, comes back. */
  lemma OtherBack(info: Info, apart: Info -> bool)
    requires Sound(info) && info.startSet && info.dstSet && !Zero(info.dst.offset) && apart(info.(endSet := false))
    ensures Printable(info) && ParseOther(OnlyStandard(info.std), ZoneText(info.dst) + RulesText(info), apart)
              == Ok(info)
  {
    hide ParseName, ParseOffset, ParseRules, ZoneText, RuleText, SoundZone, SoundRule;
    SoundPrints(info);
    var known := Info(info.std, info.dst, NO_RULE, NO_RULE, true, true, false, false);
    assert known.(start := info.start, end := info.end, startSet := true) == info.(endSet := false);
    ZoneBack(info.dst, Some(info.std.offset), RulesText(info));
    RulesBack(known, info.start, info.end, apart);
  }

  /** The other time, left out, becomes the default. */
  lemma OtherDefault(info: Info, apart: Info -> bool)
    requires Sound(info) && info.startSet && info.dstSet && Zero(info.dst.offset)
    ensures Printable(info)
    ensures var other := info.(dst := Zone(info.dst.name, HourLater(info.std.offset)));
            ParseOther(OnlyStandard(info.std), ZoneText(info.dst) + RulesText(info), apart) ==
            if apart(other.(endSet := false)) then Ok(other) else Err(DstTimeConflict)
  {
    hide ParseName, ParseRules, RuleText, NameText, SoundZone, SoundRule, HourLater;
    SoundPrints(info);
    var rules, later := RulesText(info), HourLater(info.std.offset);
    var known := Info(info.std, Zone(info.dst.name, later), NO_RULE, NO_RULE, true, true, false, false);
    ZoneParts(info.dst);
    ZeroText(info.dst, rules);
    CommaOffset(rules, info.std.offset);
    RulesBack(known, info.start, info.end, apart);
  }

  lemma ZoneParts(z: Zone)
    requires SoundZone(z)
    ensures SoundName(z.name) && SoundOffset(z.offset) && NonNegative(z.offset)
  {
  }

  lemma ZeroText(z: Zone, rules: string)
    requires SoundName(z.name) && NonNegative(z.offset) && Zero(z.offset) && rules != [] && !Letter(rules[0])
    ensures ParseName(ZoneText(z) + rules) == Some(Parsed(z.name, rules))
  {
    hide *;
    NameBack(z.name, rules);
    ZeroLeft(z, rules);
  }

  lemma ZeroLeft(z: Zone, rest: string)
    requires NonNegative(z.offset) && Zero(z.offset)
    ensures ZoneText(z) + rest == NameText(z.name) + rest
  {
    assert ZoneText(z) == NameText(z.name) + "";
  }

  /** The rules do not touch the zones. */
  lemma RulesKeep(info: Info, s: string, apart: Info -> bool)
    ensures var r := ParseRules(info, s, apart); r.Ok? ==> r.value.std == info.std && r.value.dst == info.dst
  {
    hide ParseRule;
  }

  lemma CommaOffset(rules: string, std: Offset)
    requires rules != [] && rules[0] == ','
    ensures ParseOffset(rules, Some(std)) == Some(Parsed(HourLater(std), rules))
  {
    hide HourLater;
    ScanNothing(rules);
  }

  /** When the default is a zero offset. */
  lemma ZeroLater(std: Offset, dst: Offset)
    requires SoundOffset(std) && !Zero(std) && SoundOffset(dst) && Zero(dst)
    ensures HourLater(std) == dst <==> std == Offset(-1, 1, 0, 0) && dst.sign == -1
  {
    hide Seconds, FromSeconds;
    var later := FromSeconds(Seconds(std) + 3600);
    FromSecondsSound(Seconds(std) + 3600);
    SecondsIs(std);
    SecondsIs(later);
    assert dst == Offset(dst.sign, 0, 0, 0);
  }

  lemma SecondsIs(o: Offset)
    requires o.sign == 1 || o.sign == -1
    ensures var t := o.h * 3600 + o.m * 60 + o.s; Seconds(o) == if o.sign == 1 then t else -t
  {
  }

  /** With a standard time that is not zero. */
  lemma AllBack(info: Info, apart: Info -> bool)
    requires Sound(info) && info.startSet && info.dstSet && !Zero(info.std.offset) && apart(info.(endSet := false))
    ensures Printable(info) && (Restored(info, apart) <==> Restorable(info))
  {
    hide ParseName, ParseOffset, ParseRules, ZoneText, RuleText, RulesText, Str2tz, ParseOther, HourLater, Zero;
    AllText(info);
    var t := ZoneText(info.dst) + RulesText(info);
    OtherStarts(info.dst, RulesText(info));
    StandardBack(info.std, t, apart);
    if Zero(info.dst.offset) {
      OtherDefault(info, apart);
      ZeroLater(info.std.offset, info.dst.offset);
      assert info.(dst := Zone(info.dst.name, info.dst.offset)) == info;
    } else {
      OtherBack(info, apart);
    }
  }

  lemma OtherStarts(z: Zone, rest: string)
    requires SoundZone(z)
    ensures var t := ZoneText(z) + rest; t != [] && (Letter(t[0]) || t[0] == '<')
  {
    NameStarts(z, OffsetText(z.offset, true, false) + rest);
    assert ZoneText(z) + rest == NameText(z.name) + (OffsetText(z.offset, true, false) + rest);
  }

  /** A standard time of zero leaves only its name, and that runs into what follows. */
  lemma ZeroStandard(info: Info, apart: Info -> bool)
    requires Sound(info) && info.startSet && info.dstSet && Zero(info.std.offset)
    ensures Printable(info) && !Restored(info, apart)
  {
    hide ParseName, ParseOffset, ParseRules, RulesText, RuleText, SoundRule;
    AllText(info);
    var std, t := info.std, ZoneText(info.dst) + RulesText(info);
    ZeroLeft(std, t);
    OtherStarts(info.dst, RulesText(info));
    if t[0] == '<' || Run(Letter, std.name) != |std.name| {
      NameThen(std.name, t);
      NoOffset(t);
    } else {
      CommaFirst(info);
      NamesMerge(std.name, info.dst, RulesText(info));
      OffsetDiffers(NameText(std.name) + t, info, apart);
    }
  }

  lemma CommaFirst(info: Info)
    requires Printable(info)
    ensures RulesText(info) != [] && RulesText(info)[0] == ','
  {
    hide RuleText;
  }

  /** Another offset of standard time is read. */
  lemma OffsetDiffers(s: string, info: Info, apart: Info -> bool)
    requires ParseName(s).Some? && ParseName(s).value.rest != []
    requires var o := ParseOffset(ParseName(s).value.rest, None); o.Some? ==> o.value.value != info.std.offset
    ensures Str2tz(s, apart) != Ok(info)
  {
    hide ParseName, ParseOffset, ParseRules;
    var name := ParseName(s).value;
    var o := ParseOffset(name.rest, None);
    if o.Some? {
      var known := Info(Zone(name.value, o.value.value), NO_ZONE, NO_RULE, NO_RULE, true, false, false, false);
      RulesKeep(known, o.value.rest, apart);
      if ParseName(o.value.rest).Some? {
        var other := ParseName(o.value.rest).value;
        var dst := ParseOffset(other.rest, Some(o.value.value));
        if dst.Some? {
          RulesKeep(known.(dst := Zone(other.value, dst.value.value), dstSet := true), dst.value.rest, apart);
        }
      }
    }
  }

  lemma NameThen(name: string, t: string)
    requires SoundName(name) && t != [] && (t[0] == '<' || Run(Letter, name) != |name|)
    ensures ParseName(NameText(name) + t) == Some(Parsed(name, t))
  {
    if Run(Letter, name) != |name| {
      QuotedBack(name, t);
    } else {
      NameBack(name, t);
    }
  }

  lemma NoOffset(t: string)
    requires t != [] && (Letter(t[0]) || t[0] == '<' || t[0] == ',')
    ensures ParseOffset(t, None) == None
  {
  }

  /** Two names of letters are read as one; the offset of the other time is taken for that of
      standard time. */
  lemma NamesMerge(std: string, dst: Zone, rules: string)
    requires SoundName(std) && Run(Letter, std) == |std| && SoundZone(dst) && rules != [] && rules[0] == ','
    requires Letter((ZoneText(dst) + rules)[0])
    ensures var s := NameText(std) + (ZoneText(dst) + rules);
            && ParseName(s).Some? && ParseName(s).value.rest != []
            && var o := ParseOffset(ParseName(s).value.rest, None);
               o.Some? ==> !Zero(o.value.value)
  {
    hide *;
    ZoneParts(dst);
    var off := OffsetText(dst.offset, true, false);
    BracketFirst(dst, rules);
    PlainTexts(std, dst);
    assert NameText(std) + (ZoneText(dst) + rules) == std + dst.name + (off + rules);
    OffsetThenRules(dst, rules);
    OneName(std, dst.name, off + rules);
  }

  /** An offset is not a letter, and not zero if it is read. */
  lemma OffsetThenRules(dst: Zone, rules: string)
    requires SoundZone(dst) && rules != [] && rules[0] == ','
    ensures var rest := OffsetText(dst.offset, true, false) + rules;
            && rest != [] && !Letter(rest[0])
            && var o := ParseOffset(rest, None); o.Some? ==> !Zero(o.value.value)
  {
    hide ParseOffset, TimeText;
    if Zero(dst.offset) {
      assert OffsetText(dst.offset, true, false) + rules == rules;
      NoOffset(rules);
    } else {
      OffsetBack(dst.offset, None, rules);
    }
  }

  lemma OneName(a: string, b: string, rest: string)
    requires SoundName(a) && Run(Letter, a) == |a| && Run(Letter, b) == |b| && rest != [] && !Letter(rest[0])
    ensures ParseName(a + b + rest) == Some(Parsed(Cut(a + b), rest))
  {
    forall c | c in a + b
      ensures Letter(c)
    {
    }
    RunIs(Letter, a + b, rest);
  }

  lemma PlainTexts(std: string, dst: Zone)
    requires NonNegative(dst.offset)
    ensures Run(Letter, std) == |std| ==> NameText(std) == std
    ensures Run(Letter, dst.name) == |dst.name| ==> ZoneText(dst) == dst.name + OffsetText(dst.offset, true, false)
    ensures SoundZone(dst) ==> SoundName(dst.name)
  {
  }

  lemma BracketFirst(z: Zone, rest: string)
    requires SoundZone(z)
    ensures ZoneText(z) != []
    ensures Run(Letter, z.name) != |z.name| ==> (ZoneText(z) + rest)[0] == '<'
    ensures !Letter('<')
  {
    NameStarts(z, []);
    assert NameText(z.name) + [] == NameText(z.name);
  }

  /** Whatever is accepted is restored exactly when it is restorable. */
  lemma RoundTrip(s: string, apart: Info -> bool)
    requires Str2tz(s, apart).Ok?
    ensures var info := Str2tz(s, apart).value; Printable(info) && (Restored(info, apart) <==> Restorable(info))
  {
    var info := Str2tz(s, apart).value;
    ReadSound(s, apart);
    SoundPrints(info);
    hide Str2tz, ZoneText, RuleText, SoundZone, SoundRule;
    if !info.startSet {
      StandardOnly(info, apart);
    } else if info.dstSet {
      if Zero(info.std.offset) {
        ZeroStandard(info, apart);
      } else {
        AllBack(info, apart);
      }
    }
  }

  /** A string that is not: the sign of a zero offset is lost. */
  lemma ZeroWest(apart: Info -> bool)
    ensures Str2tz("ABC0", apart)
         == Ok(Info(Zone("ABC", Offset(-1, 0, 0, 0)), NO_ZONE, NO_RULE, NO_RULE, true, false, false, false))
    ensures !Restorable(Str2tz("ABC0", apart).value)
  {
    RunIs(Letter, "ABC", "0");
    assert "ABC" + "0" == "ABC0";
    FieldBack(Decimal(0), 0, []);
    assert Decimal(0) + [] == "0";
    assert ScanTime("0", 0, 0, 0) == Time(1, 0, 0, 0, []);
    assert ParseOffset("0", None) == Some(Parsed(Offset(-1, 0, 0, 0), []));
  }
}
