/** What time zone strings mean, beyond what the writer writes: defaults, limits and the digits. */
module TzReading {
  import opened TzText
  import opened TzRoundTrip

  const TWO_O_CLOCK := Offset(1, 2, 0, 0)

  /** Section 8.3 of the Base Definitions of POSIX.1-2017: a rule without time is for 02:00:00. */
  lemma DefaultTime(r: Rule, start: bool, rest: string)
    requires SoundDay(r) && (rest == [] || rest[0] == ',')
    ensures ParseRule("," + DayText(r) + rest, start) == Some(Parsed(r.(offset := Offset(1, 2, 0, 0)), rest))
  {
    hide ParseDay, DayText;
    var s := "," + DayText(r) + rest;
    assert s[0] == ',' && s[1..] == DayText(r) + rest;
    DayBack(r, start, rest);
  }

  /** A `/` that no number follows changes nothing. */
  lemma NoTime(t: string)
    requires t != [] && !(Space(t[0]) || Digit(t[0]) || t[0] == '+' || t[0] == '-')
    ensures ParseTime("/" + t) == Some(Parsed(Offset(1, 2, 0, 0), t))
  {
    var s := "/" + t;
    assert s[1..] == t && s[0] == '/' && s[1] == t[0];
    ScanNothing(t);
    hide ScanHu;
  }

  /** Without rules the other time is from the second Sunday of March to the first of November. */
  lemma DefaultRules(info: Info, apart: Info -> bool)
    ensures var all := info.(start := Rule(M, 3, 2, 0, Offset(1, 2, 0, 0)),
                             end := Rule(M, 11, 1, 0, Offset(1, 2, 0, 0)), startSet := true);
            ParseRules(info, "", apart) == if apart(all) then Ok(all.(endSet := true)) else Err(DstTimeConflict)
  {
  }

  /** A text of a standard time and the name of another one gets that, and an hour of difference. */
  lemma OnlyZones(std: Zone, name: string, apart: Info -> bool)
    requires SoundZone(std) && !Zero(std.offset) && SoundName(name)
    ensures var all := Info(std, Zone(name, HourLater(std.offset)), Rule(M, 3, 2, 0, Offset(1, 2, 0, 0)),
                            Rule(M, 11, 1, 0, Offset(1, 2, 0, 0)), true, true, true, false);
            Str2tz(ZoneText(std) + NameText(name), apart)
            == if apart(all) then Ok(all.(endSet := true)) else Err(DstTimeConflict)
  {
    hide ParseName, ParseOffset, ParseRules, ZoneText, NameText, HourLater, SoundZone, SoundName;
    var t := NameText(name);
    NameStarts(Zone(name, NO_OFFSET), []);
    assert t + [] == t;
    StandardBack(std, t, apart);
    NameBack(name, []);
    NothingOffset(std.offset);
    DefaultRules(Info(std, Zone(name, HourLater(std.offset)), NO_RULE, NO_RULE, true, true, false, false), apart);
  }

  lemma NothingOffset(std: Offset)
    ensures ParseOffset([], Some(std)) == Some(Parsed(HourLater(std), []))
  {
    hide HourLater;
    ScanNothing([]);
  }

  /** The default offset is one hour ahead, unless that is out of range. */
  lemma LaterByAnHour(std: Offset)
    requires SoundOffset(std)
    ensures if Seconds(std) + 3600 <= 14 * 3600
            then SoundOffset(HourLater(std)) && Seconds(HourLater(std)) == Seconds(std) + 3600
            else HourLater(std) == std
  {
    FromSecondsSound(Seconds(std) + 3600);
    hide FromSeconds, Seconds;
  }

  /** An offset without sign is west of Greenwich. */
  lemma NoSign(t: string, std: Option<Offset>)
    requires t != [] && Digit(t[0])
    ensures ParseOffset(t, std) == ParseOffset("+" + t, std)
  {
    hide ScanTime, HourLater, ZoneOffsetOk;
    assert ("+" + t)[1..] == t;
  }

  // ---------- limits ----------

  /** Twelve hours to the west and fourteen to the east are the limits of an offset. */
  lemma OffsetRange(o: Offset, std: Option<Offset>, rest: string)
    requires (o.sign == 1 || o.sign == -1) && NonNegative(o) && o.h < 0x1_0000 && o.m <= 59 && o.s <= 59 && Stops(rest)
    ensures var t, r := (if o.sign > 0 then "-" else "+") + TimeText(o) + rest, o.h * 3600 + o.m * 60 + o.s;
            ParseOffset(t, std)
            == if r <= (if o.sign > 0 then 14 else 12) * 3600 then Some(Parsed(o, rest)) else None
  {
    hide ScanTime, TimeText;
    var u := TimeText(o) + rest;
    var t := (if o.sign > 0 then "-" else "+") + TimeText(o) + rest;
    assert t[0] == (if o.sign > 0 then '-' else '+') && t[1..] == u;
    TimeBack(o, rest, 0);
    SecondsIs(o);
  }

  /** Days are counted from 0 or from 1, and to 365. */
  lemma JulianRange(n: nat, start: bool, rest: string)
    requires rest == [] || !Digit(rest[0])
    ensures ParseDay(Decimal(n) + rest, start)
         == if n <= 365 then Some(Parsed(Rule(J0, 0, 0, n, NO_OFFSET), rest)) else None
    ensures ParseDay("J" + (Decimal(n) + rest), start)
         == if 1 <= n <= 365 then Some(Parsed(Rule(J1, 0, 0, n, NO_OFFSET), rest)) else None
  {
    hide Number, ParseMonth, Run;
    var d := Decimal(n);
    var j := "J" + (d + rest);
    NumberOfDecimal(n);
    RunIs(Digit, d, rest);
    assert (d + rest)[0] == d[0] && d[0] in d;
    assert j[0] == 'J' && j[1..] == d + rest;
    hide Decimal;
  }

  /** Months, weeks and days of the week. */
  lemma MonthRange(m: nat, n: nat, d: nat, rest: string)
    requires m < 0x1_0000 && n < 0x1_0000 && d < 0x1_0000 && (rest == [] || !Digit(rest[0]))
    ensures ParseMonth(Decimal(m) + "." + Decimal(n) + "." + Decimal(d) + rest)
         == if 1 <= m <= 12 && 1 <= n <= 5 && d <= 6 then Some(Parsed(Rule(M, m, n, d, NO_OFFSET), rest)) else None
  {
    hide ScanHu, Decimal;
    var a, b, c := Decimal(m), Decimal(n), Decimal(d);
    assert a + "." + b + "." + c + rest == a + ("." + (b + ("." + (c + rest))));
    assert ("." + (b + ("." + (c + rest))))[1..] == b + ("." + (c + rest));
    assert ("." + (c + rest))[1..] == c + rest;
    FieldBack(a, m, "." + (b + ("." + (c + rest))));
    FieldBack(b, n, "." + (c + rest));
    FieldBack(c, d, rest);
  }

  /** A change must be on the day itself. */
  lemma TimeRange(info: Info, r: Rule, rest: string, apart: Info -> bool)
    requires SoundDay(r) && r.offset.sign == 1 && NonNegative(r.offset) && (rest == [] || rest[0] == ',')
    requires 23 < r.offset.h < 0x1_0000 && r.offset.m <= 59 && r.offset.s <= 59
    ensures ParseRules(info, "," + RuleText(r) + rest, apart) == Err(DstTimeOutOfRange)
  {
    hide ParseDay, ParseTime, DayText, OffsetText, TimeText, ScanTime;
    var time := "/" + OffsetText(r.offset, false, true) + rest;
    var s := "," + RuleText(r) + rest;
    assert s[0] == ',' && s[1..] == DayText(r) + time;
    DayBack(r, true, time);
    LateBack(r.offset, rest);
  }

  lemma LateBack(o: Offset, rest: string)
    requires o.sign == 1 && NonNegative(o) && o.h < 0x1_0000 && o.m <= 59 && o.s <= 59 && Stops(rest)
    ensures ParseTime("/" + OffsetText(o, false, true) + rest) == Some(Parsed(o, rest))
  {
    hide ScanTime, TimeText;
    TimeBack(o, rest, 2);
    SlashTime(o, rest);
  }

  /** Names are cut to 17 characters. */
  lemma NameCut(name: string, rest: string)
    requires |name| >= 3 && (forall c | c in name :: Letter(c)) && (rest == [] || !Letter(rest[0]))
    ensures ParseName(name + rest) == Some(Parsed(if |name| <= 17 then name else name[..17], rest))
  {
    RunIs(Letter, name, rest);
  }

  lemma QuotedCut(name: string, rest: string)
    requires |name| >= 3 && (forall c | c in name :: NameChar(c))
    ensures ParseName("<" + name + ">" + rest) == Some(Parsed(if |name| <= 17 then name else name[..17], rest))
  {
    var s, t := "<" + name + ">" + rest, name + (">" + rest);
    assert s[0] == '<' && s[1..] == t;
    RunIs(NameChar, name, ">" + rest);
    assert t[|name| + 1..] == (">" + rest)[1..] == rest;
  }

  /** Fewer than three characters are no name. */
  lemma ShortName(name: string, rest: string)
    requires |name| < 3 && (forall c | c in name :: Letter(c)) && (rest == [] || (!Letter(rest[0]) && rest[0] != '<'))
    ensures ParseName(name + rest) == None
  {
    RunIs(Letter, name, rest);
    if name != [] {
      assert (name + rest)[0] == name[0] && name[0] in name;
    }
  }

  // ---------- errors ----------

  /** The first part of a text that is wrong decides the error. */
  lemma Errors(apart: Info -> bool)
    ensures Str2tz("ES5", apart) == Err(InvalidStdName)
    ensures Str2tz("EST!", apart) == Err(InvalidStdOffset)
    ensures Str2tz("EST5!", apart) == Err(InvalidDstName)
    ensures Str2tz("EST5EDT15", apart) == Err(InvalidDstOffset)
    ensures Str2tz("EST5,!", apart) == Err(WrongSyntax)
  {
    hide ParseName, ParseOffset, ParseRule;
    WrongNames();
    WrongOffsets();
    RightParts();
    WrongRule();
  }

  lemma WrongNames()
    ensures ParseName("ES5") == None && ParseName("!") == None
  {
    ShortName("ES", "5");
    assert "ES" + "5" == "ES5";
  }

  lemma WrongOffsets()
    ensures ParseOffset("!", None) == None && ParseOffset("15", Some(Offset(-1, 5, 0, 0))) == None
  {
    var o, std := Offset(-1, 15, 0, 0), Offset(-1, 5, 0, 0);
    Fifteen();
    assert ParseOffset("!", None) == None;
    hide *;
    OffsetRange(o, Some(std), "");
    assert "+" + "15" + "" == "+" + "15";
    NoSign("15", Some(std));
  }

  lemma Fifteen()
    ensures TimeText(Offset(-1, 15, 0, 0)) == "15" && Digit("15"[0]) && NonNegative(Offset(-1, 15, 0, 0)) && Stops("")
  {
    assert Decimal(1) == "1";
  }

  lemma WrongRule()
    ensures ParseRule(",!", true) == None
  {
    assert ",!"[1..] == "!";
  }

  lemma RightParts()
    ensures ParseName("EST!") == Some(Parsed("EST", "!")) && ParseName("EST5!") == Some(Parsed("EST", "5!"))
    ensures ParseName("EST5EDT15") == Some(Parsed("EST", "5EDT15")) && ParseName("EST5,!") == Some(Parsed("EST", "5,!"))
    ensures ParseName("EDT15") == Some(Parsed("EDT", "15"))
    ensures forall rest | rest in {"!", "EDT15", ",!"} ::
              ParseOffset("5" + rest, None) == Some(Parsed(Offset(-1, 5, 0, 0), rest))
    ensures "5" + "!" == "5!" && "5" + "EDT15" == "5EDT15" && "5" + ",!" == "5,!"
  {
    hide ParseName, ParseOffset;
    NameCut("EST", "!");
    NameCut("EST", "5!");
    NameCut("EST", "5EDT15");
    NameCut("EST", "5,!");
    NameCut("EDT", "15");
    FiveHours("!");
    FiveHours("EDT15");
    FiveHours(",!");
    assert "EST" + "!" == "EST!" && "EST" + "5!" == "EST5!" && "EST" + "5EDT15" == "EST5EDT15";
    assert "EST" + "5,!" == "EST5,!" && "EDT" + "15" == "EDT15";
  }

  lemma FiveHours(rest: string)
    requires Stops(rest)
    ensures ParseOffset("5" + rest, None) == Some(Parsed(Offset(-1, 5, 0, 0), rest))
  {
    var o := Offset(-1, 5, 0, 0);
    OffsetRange(o, None, rest);
    assert Decimal(5) == "5" && TimeText(o) == "5";
    hide ParseOffset, TimeText, Decimal;
    assert "+" + "5" + rest == "+" + ("5" + rest);
    NoSign("5" + rest, None);
  }

  // ---------- digits ----------

  /** Numbers are written without leading zeros, or with one up to 9. */
  lemma {:induction false} DecimalPlain(n: nat)
    ensures n > 0 ==> Decimal(n)[0] != '0'
    ensures |Decimal(n)| == 1 <==> n < 10
    ensures n < 10 ==> Decimal(n) == ['0' + n as char] && Decimal2(n) == ['0', '0' + n as char]
    ensures n >= 10 ==> Decimal2(n) == Decimal(n)
  {
    if n >= 10 {
      DecimalPlain(n / 10);
    }
  }

  /** Whole hours stand alone; otherwise every field has two digits. */
  lemma TimeForms(o: Offset)
    requires NonNegative(o) && o.h < 24 && o.m <= 59 && o.s <= 59
    ensures o.m == 0 && o.s == 0 ==> |TimeText(o)| == (if o.h < 10 then 1 else 2) && Number(TimeText(o)) == o.h
    ensures o.m != 0 && o.s == 0 ==> |TimeText(o)| == 5 && TimeText(o)[2] == ':'
    ensures o.s != 0 ==> |TimeText(o)| == 8 && TimeText(o)[2] == TimeText(o)[5] == ':'
  {
    TwoDigits(o.h);
    TwoDigits(o.m);
    TwoDigits(o.s);
    DecimalPlain(o.h);
    NumberOfDecimal(o.h);
    hide Decimal, Decimal2, Number;
  }

  // ---------- an example ----------

  /** Eastern time, without the flag for the last check. */
  ghost function Eastern(): Info {
    Info(Zone("EST", Offset(-1, 5, 0, 0)), Zone("EDT", Offset(-1, 4, 0, 0)),
         Rule(M, 3, 2, 0, Offset(1, 2, 0, 0)), Rule(M, 11, 1, 0, Offset(1, 2, 0, 0)), true, true, true, false)
  }

  lemma EasternRead(apart: Info -> bool)
    ensures Str2tz("EST5EDT", apart)
         == if apart(Eastern()) then Ok(Eastern().(endSet := true)) else Err(DstTimeConflict)
  {
    hide ParseName, ParseOffset, ParseRules, HourLater;
    EasternNames();
    FiveRead();
    EasternLater();
    NothingOffset(Offset(-1, 5, 0, 0));
    DefaultRules(Info(Zone("EST", Offset(-1, 5, 0, 0)), Zone("EDT", Offset(-1, 4, 0, 0)), NO_RULE, NO_RULE,
                      true, true, false, false), apart);
  }

  lemma EasternNames()
    ensures ParseName("EST5EDT") == Some(Parsed("EST", "5EDT")) && ParseName("EDT") == Some(Parsed("EDT", ""))
  {
    hide ParseName;
    NameCut("EST", "5EDT");
    NameCut("EDT", "");
    assert "EST" + "5EDT" == "EST5EDT" && "EDT" + "" == "EDT";
  }

  lemma EasternLater()
    ensures HourLater(Offset(-1, 5, 0, 0)) == Offset(-1, 4, 0, 0)
  {
  }

  lemma FiveRead()
    ensures ParseOffset("5EDT", None) == Some(Parsed(Offset(-1, 5, 0, 0), "EDT"))
  {
    FiveHours("EDT");
    assert "5" + "EDT" == "5EDT";
  }

  lemma EasternWritten()
    ensures Printable(Eastern()) && Convert(Eastern().(endSet := true)) == Ok("EST+5EDT+4,M3.2.0/2,M11.1.0/2")
  {
    EasternZones();
    EasternRules();
    hide ZoneText, RuleText;
    assert "EST+5" + "EDT+4" + "," + "M3.2.0/2" + "," + "M11.1.0/2" == "EST+5EDT+4,M3.2.0/2,M11.1.0/2";
  }

  lemma EasternZones()
    ensures ZoneText(Eastern().std) == "EST+5" && ZoneText(Eastern().dst) == "EDT+4"
  {
    RunIs(Letter, "EST", "");
    RunIs(Letter, "EDT", "");
    assert "EST" + "" == "EST" && "EDT" + "" == "EDT";
    hide Run;
    assert OffsetText(Offset(-1, 5, 0, 0), true, false) == "+5" && OffsetText(Offset(-1, 4, 0, 0), true, false) == "+4";
  }

  lemma EasternRules()
    ensures RuleText(Eastern().start) == "M3.2.0/2" && RuleText(Eastern().end) == "M11.1.0/2"
  {
    Digits();
    hide Decimal, Decimal2;
    assert OffsetText(TWO_O_CLOCK, false, true) == "2";
    assert DayText(Eastern().start) == "M3.2.0" && DayText(Eastern().end) == "M11.1.0";
  }

  lemma Digits()
    ensures Decimal(0) == "0" && Decimal(1) == "1" && Decimal(2) == "2" && Decimal(3) == "3" && Decimal(11) == "11"
  {
  }
}
