/** What the memory map of phy_meminfo_parser.c holds, as a value: a table ordered by name. */
module MemoryTable {
  /** The range of `size_t`. */
  const WORD: int := 0x1_0000_0000_0000_0000

  datatype Span = Span(start: int, end: int)

  /** A kind of memory, its ranges and `size`. */
  datatype Entry = Entry(name: string, spans: seq<Span>, size: int)

  // ---------- strcmp ----------

  /** The sign of `strcmp`. */
  function StrCmp(a: string, b: string): int {
    if a == [] || b == [] then (if a == b then 0 else if a == [] then -1 else 1)
    else if a[0] != b[0] then (if a[0] < b[0] then -1 else 1)
    else StrCmp(a[1..], b[1..])
  }

  lemma {:induction false} StrCmpZero(a: string, b: string)
    ensures StrCmp(a, b) == 0 <==> a == b
  {
    if a != [] && b != [] && a[0] == b[0] {
      StrCmpZero(a[1..], b[1..]);
      assert a == [a[0]] + a[1..] && b == [b[0]] + b[1..];
    }
  }

  /** `a` comes before `b` in a dictionary: after a common beginning it ends or has the lesser
    * character. */
  ghost predicate Precedes(a: string, b: string) {
    exists k :: Parts(a, b, k)
  }

  ghost predicate Parts(a: string, b: string, k: int) {
    0 <= k <= |a| && k < |b| && a[..k] == b[..k] && (k == |a| || a[k] < b[k])
  }

  lemma {:induction false} StrCmpMeans(a: string, b: string)
    ensures StrCmp(a, b) < 0 <==> Precedes(a, b)
    ensures StrCmp(a, b) > 0 <==> Precedes(b, a)
  {
    StrCmpZero(a, b);
    StrCmpFlip(a, b);
    StrCmpFlip(b, a);
    if StrCmp(a, b) < 0 {
      LessPrecedes(a, b);
    }
    if StrCmp(b, a) < 0 {
      LessPrecedes(b, a);
    }
    if Precedes(a, b) {
      var k :| Parts(a, b, k);
      PrecedesLess(a, b, k);
    }
    if Precedes(b, a) {
      var k :| Parts(b, a, k);
      PrecedesLess(b, a, k);
    }
  }

  lemma {:induction false} PrecedesLess(a: string, b: string, k: nat)
    requires Parts(a, b, k)
    ensures StrCmp(a, b) < 0
  {
    if k > 0 {
      assert a[0] == a[..k][0] == b[..k][0] == b[0];
      assert a[1..][..k - 1] == a[..k][1..] == b[..k][1..] == b[1..][..k - 1];
      PrecedesLess(a[1..], b[1..], k - 1);
    }
  }

  lemma {:induction false} LessPrecedes(a: string, b: string)
    requires StrCmp(a, b) < 0
    ensures Precedes(a, b)
  {
    if a == [] || a[0] < b[0] {
      assert Parts(a, b, 0);
    } else {
      LessPrecedes(a[1..], b[1..]);
      var k :| Parts(a[1..], b[1..], k);
      assert a[..k + 1] == [a[0]] + a[1..][..k] == [b[0]] + b[1..][..k] == b[..k + 1];
      assert Parts(a, b, k + 1);
    }
  }

  lemma {:induction false} StrCmpFlip(a: string, b: string)
    ensures StrCmp(a, b) < 0 <==> StrCmp(b, a) > 0
  {
    if a != [] && b != [] && a[0] == b[0] {
      StrCmpFlip(a[1..], b[1..]);
    }
  }

  lemma {:induction false} StrCmpTrans(a: string, b: string, c: string)
    requires StrCmp(a, b) < 0 && StrCmp(b, c) < 0
    ensures StrCmp(a, c) < 0
  {
    if a != [] && a[0] == b[0] && b[0] == c[0] {
      StrCmpTrans(a[1..], b[1..], c[1..]);
    }
  }

  // ---------- ranges ----------

  /** The number of bytes from `start` to `end`, as `size_t` computes it. */
  function Bytes(sp: Span): int {
    (sp.end - sp.start) + 1
  }

  /** The addresses in a range, both ends included. */
  ghost function Addresses(start: int, end: int): (all: set<int>)
    ensures forall x :: x in all <==> start <= x <= end
    decreases end - start
  {
    if end < start then {} else Addresses(start, end - 1) + {end}
  }

  lemma {:induction false} BytesCount(start: int, end: int)
    requires start <= end + 1
    ensures Bytes(Span(start, end)) == |Addresses(start, end)|
    decreases end - start
  {
    if start <= end {
      BytesCount(start, end - 1);
    }
  }

  ghost function AllBytes(spans: seq<Span>): int {
    if spans == [] then 0 else Bytes(spans[0]) + AllBytes(spans[1..])
  }

  ghost predicate ByStart(spans: seq<Span>) {
    forall i, j | 0 <= i < j < |spans| :: spans[i].start <= spans[j].start
  }

  /** Place of the first range that starts after `start`. */
  ghost function Slot(spans: seq<Span>, start: int): (i: nat)
    ensures i <= |spans| && (i < |spans| ==> spans[i].start > start)
    ensures forall j | 0 <= j < i :: spans[j].start <= start
  {
    if spans == [] || spans[0].start > start then 0 else
    var i := Slot(spans[1..], start);
    assert forall j | 1 <= j < i + 1 :: spans[j] == spans[1..][j - 1];
    i + 1
  }

  lemma {:induction false} SlotIs(spans: seq<Span>, start: int, i: nat)
    requires i <= |spans| && (forall j | 0 <= j < i :: spans[j].start <= start)
               && (i < |spans| ==> spans[i].start > start)
    ensures Slot(spans, start) == i
  {
    if i > 0 {
      SlotIs(spans[1..], start, i - 1);
    }
  }

  ghost function Inserted(spans: seq<Span>, sp: Span): seq<Span> {
    var i := Slot(spans, sp.start);
    spans[..i] + [sp] + spans[i..]
  }

  /** The ranges that start at `start`, in list order. */
  ghost function At(spans: seq<Span>, start: int): seq<Span> {
    if spans == [] then [] else
    (if spans[0].start == start then [spans[0]] else []) + At(spans[1..], start)
  }

  lemma {:induction false} AtCat(a: seq<Span>, b: seq<Span>, start: int)
    ensures At(a + b, start) == At(a, start) + At(b, start)
  {
    if a == [] {
      assert a + b == b;
    } else {
      assert (a + b)[1..] == a[1..] + b && (a + b)[0] == a[0];
      AtCat(a[1..], b, start);
      var first := if a[0].start == start then [a[0]] else [];
      assert At(a + b, start) == first + At(a[1..] + b, start);
    }
  }

  lemma {:induction false} NoneAt(spans: seq<Span>, start: int)
    requires forall i | 0 <= i < |spans| :: spans[i].start != start
    ensures At(spans, start) == []
  {
    if spans != [] {
      NoneAt(spans[1..], start);
    }
  }

  lemma {:induction false} BytesCat(a: seq<Span>, b: seq<Span>)
    ensures AllBytes(a + b) == AllBytes(a) + AllBytes(b)
  {
    if a == [] {
      assert a + b == b;
    } else {
      assert (a + b)[1..] == a[1..] + b;
      BytesCat(a[1..], b);
    }
  }

  lemma InsertedByStart(spans: seq<Span>, sp: Span)
    requires ByStart(spans)
    ensures ByStart(Inserted(spans, sp))
  {
    var i, t := Slot(spans, sp.start), Inserted(spans, sp);
    forall j, k | 0 <= j < k < |t|
      ensures t[j].start <= t[k].start
    {
      assert t[j] == if j < i then spans[j] else if j == i then sp else spans[j - 1];
      assert t[k] == if k < i then spans[k] else if k == i then sp else spans[k - 1];
    }
  }

  lemma InsertedBytes(spans: seq<Span>, sp: Span)
    ensures AllBytes(Inserted(spans, sp)) == AllBytes(spans) + Bytes(sp)
    ensures multiset(Inserted(spans, sp)) == multiset(spans) + multiset{sp}
  {
    var i := Slot(spans, sp.start);
    var a, b := spans[..i], spans[i..];
    assert spans == a + b;
    hide *;
    BytesCat(a, b);
    BytesCat(a + [sp], b);
    BytesCat(a, [sp]);
    BytesOne(sp);
    InsertedIs(spans, sp);
    assert multiset(a + [sp] + b) == multiset(a) + multiset{sp} + multiset(b);
  }

  lemma BytesOne(sp: Span)
    ensures AllBytes([sp]) == Bytes(sp)
  {
    assert [sp][1..] == [];
  }

  lemma InsertedIs(spans: seq<Span>, sp: Span)
    ensures var i := Slot(spans, sp.start); i <= |spans| && Inserted(spans, sp) == spans[..i] + [sp] + spans[i..]
  {
  }

  /** Equal starts keep the order of insertion. */
  lemma InsertedAt(spans: seq<Span>, sp: Span, start: int)
    requires ByStart(spans)
    ensures At(Inserted(spans, sp), start) == At(spans, start) + if sp.start == start then [sp] else []
  {
    hide At;
    var i := Slot(spans, sp.start);
    var a, b := spans[..i], spans[i..];
    if sp.start == start {
      NoneFrom(spans, i, start);
    }
    AtBetween(a, sp, b, start);
    assert spans == a + b;
  }

  lemma NoneFrom(spans: seq<Span>, i: nat, start: int)
    requires ByStart(spans) && i <= |spans| && (i < |spans| ==> spans[i].start > start)
    ensures At(spans[i..], start) == []
  {
    forall j | 0 <= j < |spans| - i
      ensures spans[i..][j].start != start
    {
      assert spans[i].start <= spans[i + j].start;
    }
    NoneAt(spans[i..], start);
  }

  lemma AtBetween(a: seq<Span>, sp: Span, b: seq<Span>, start: int)
    requires sp.start == start ==> At(b, start) == []
    ensures At(a + [sp] + b, start) == At(a + b, start) + if sp.start == start then [sp] else []
  {
    hide At;
    AtAround(a, sp, b, start);
    var x, y := At(a, start), At(b, start);
    assert x + [sp] + [] == x + [] + [sp] && x + [] + y == x + y + [];
  }

  lemma AtAround(a: seq<Span>, sp: Span, b: seq<Span>, start: int)
    ensures At(a + b, start) == At(a, start) + At(b, start)
    ensures At(a + [sp] + b, start) == At(a, start) + (if sp.start == start then [sp] else []) + At(b, start)
  {
    AtCat(a, b, start);
    AtCat(a + [sp], b, start);
    AtCat(a, [sp], start);
    AtOne(sp, start);
    hide At;
  }

  lemma AtOne(sp: Span, start: int)
    ensures At([sp], start) == if sp.start == start then [sp] else []
  {
    assert [sp][1..] == [];
  }

  // ---------- the table ----------

  ghost predicate ByName(table: seq<Entry>) {
    forall i, j | 0 <= i < j < |table| :: StrCmp(table[i].name, table[j].name) < 0
  }

  ghost predicate Consistent(e: Entry) {
    ByStart(e.spans) && e.size == AllBytes(e.spans) % WORD
  }

  ghost predicate Sound(table: seq<Entry>) {
    ByName(table) && forall i | 0 <= i < |table| :: Consistent(table[i])
  }

  /** Place of the first name that is not before `name`. */
  ghost function Place(table: seq<Entry>, name: string): (i: nat)
    ensures i <= |table|
  {
    if table == [] || StrCmp(name, table[0].name) <= 0 then 0 else 1 + Place(table[1..], name)
  }

  ghost predicate Has(table: seq<Entry>, name: string) {
    var i := Place(table, name);
    i < |table| && table[i].name == name
  }

  /** The table with an entry for `name`, empty if it is new. */
  ghost function WithName(table: seq<Entry>, name: string): seq<Entry> {
    var i := Place(table, name);
    if Has(table, name) then table else table[..i] + [Entry(name, [], 0)] + table[i..]
  }

  ghost function Extended(e: Entry, sp: Span): Entry {
    Entry(e.name, Inserted(e.spans, sp), (e.size + Bytes(sp)) % WORD)
  }

  /** `add_mem_map`, when it succeeds. */
  ghost function Added(table: seq<Entry>, name: string, sp: Span): seq<Entry> {
    var t, i := WithName(table, name), Place(WithName(table, name), name);
    if i < |t| then t[i := Extended(t[i], sp)] else t
  }

  lemma {:induction false} PlaceFacts(table: seq<Entry>, name: string)
    requires ByName(table)
    ensures var i := Place(table, name);
            && (forall j | 0 <= j < i :: StrCmp(name, table[j].name) > 0)
            && (forall j | i <= j < |table| && (j > i || table[j].name != name) :: StrCmp(name, table[j].name) < 0)
  {
    if table != [] {
      if StrCmp(name, table[0].name) > 0 {
        PlaceFacts(table[1..], name);
        assert forall j | 1 <= j < |table| :: table[j] == table[1..][j - 1];
      } else {
        forall j | 0 <= j < |table| && (j > 0 || table[j].name != name)
          ensures StrCmp(name, table[j].name) < 0
        {
          StrCmpZero(name, table[0].name);
          if j > 0 && name != table[0].name {
            StrCmpTrans(name, table[0].name, table[j].name);
          }
        }
      }
    }
  }

  /** The entries stand in the order of a dictionary. */
  lemma NamesInOrder(table: seq<Entry>)
    requires ByName(table)
    ensures forall i, j | 0 <= i < j < |table| :: Precedes(table[i].name, table[j].name)
  {
    forall i, j | 0 <= i < j < |table|
      ensures Precedes(table[i].name, table[j].name)
    {
      StrCmpMeans(table[i].name, table[j].name);
    }
  }

  /** The names before place `a` are before `name`, those from place `b` on after it. */
  ghost predicate Between(table: seq<Entry>, name: string, a: nat, b: nat) {
    && a <= b <= |table|
    && (forall i | 0 <= i < a :: StrCmp(name, table[i].name) > 0)
    && (forall i | b <= i < |table| :: StrCmp(name, table[i].name) < 0)
  }

  /** What one comparison tells about all the names. */
  lemma Narrow(table: seq<Entry>, name: string, a: nat, k: nat, b: nat)
    requires ByName(table) && Between(table, name, a, b) && a <= k < b
    ensures StrCmp(name, table[k].name) < 0 ==> Between(table, name, a, k)
    ensures StrCmp(name, table[k].name) > 0 ==> Between(table, name, k + 1, b)
  {
    var ret := StrCmp(name, table[k].name);
    forall i | 0 <= i < |table|
      ensures ret < 0 && i >= k ==> StrCmp(name, table[i].name) < 0
      ensures ret > 0 && i <= k ==> StrCmp(name, table[i].name) > 0
    {
      StrCmpFlip(table[k].name, name);
      StrCmpFlip(table[i].name, name);
      if ret < 0 && i > k {
        StrCmpTrans(name, table[k].name, table[i].name);
      } else if ret > 0 && i < k {
        StrCmpTrans(table[i].name, table[k].name, name);
      }
    }
  }

  lemma NotAfter(table: seq<Entry>, name: string, k: nat)
    requires ByName(table) && k < |table| && table[k].name == name
    ensures forall i | 0 <= i < k :: StrCmp(name, table[i].name) > 0
  {
    forall i | 0 <= i < k
      ensures StrCmp(name, table[i].name) > 0
    {
      StrCmpFlip(table[i].name, name);
    }
  }

  lemma {:induction false} PlaceIs(table: seq<Entry>, name: string, i: nat)
    requires i <= |table| && forall j | 0 <= j < i :: StrCmp(name, table[j].name) > 0
    requires i < |table| ==> StrCmp(name, table[i].name) <= 0
    ensures Place(table, name) == i
  {
    if i > 0 {
      assert table[0] == table[0];
      assert forall j | 0 <= j < |table| - 1 :: table[1..][j] == table[j + 1];
      PlaceIs(table[1..], name, i - 1);
    }
  }

  lemma HasAt(table: seq<Entry>, name: string, k: nat)
    requires k < |table| && table[k].name == name && Place(table, name) == k
    ensures Has(table, name)
  {
  }

  lemma WithNameSound(table: seq<Entry>, name: string)
    requires Sound(table)
    ensures Sound(WithName(table, name)) && Has(WithName(table, name), name)
    ensures Place(WithName(table, name), name) == Place(table, name)
  {
    WithNameOrdered(table, name);
    hide StrCmp, ByName, Place, ByStart, AllBytes;
    EmptyConsistent(name);
  }

  lemma EmptyConsistent(name: string)
    ensures Consistent(Entry(name, [], 0))
  {
  }

  lemma WithNameOrdered(table: seq<Entry>, name: string)
    requires ByName(table)
    ensures ByName(WithName(table, name)) && Has(WithName(table, name), name)
    ensures Place(WithName(table, name), name) == Place(table, name)
  {
    PlaceFacts(table, name);
    StrCmpZero(name, name);
    if !Has(table, name) {
      Widened(table, name, Place(table, name));
      PlaceIs(WithName(table, name), name, Place(table, name));
    }
  }

  lemma WithNameAgain(table: seq<Entry>, name: string)
    requires ByName(table)
    ensures Has(table, name) ==> WithName(table, name) == table
    ensures var t, i := WithName(table, name), Place(table, name);
            i < |t| && forall sp :: Added(table, name, sp) == t[i := Extended(t[i], sp)]
  {
    WithNameOrdered(table, name);
  }

  lemma Widened(table: seq<Entry>, name: string, i: nat)
    requires ByName(table) && i <= |table|
    requires forall j | 0 <= j < i :: StrCmp(name, table[j].name) > 0
    requires forall j | i <= j < |table| :: StrCmp(name, table[j].name) < 0
    ensures ByName(table[..i] + [Entry(name, [], 0)] + table[i..])
  {
    var e := Entry(name, [], 0);
    var t := table[..i] + [e] + table[i..];
    forall j, k | 0 <= j < k < |t|
      ensures StrCmp(t[j].name, t[k].name) < 0
    {
      assert t[j] == if j < i then table[j] else if j == i then e else table[j - 1];
      assert t[k] == if k < i then table[k] else if k == i then e else table[k - 1];
      StrCmpFlip(t[j].name, name);
    }
  }

  /** `add_mem_map` keeps names unique and ordered, ranges sorted and sizes exact. */
  lemma AddedSound(table: seq<Entry>, name: string, sp: Span)
    requires Sound(table)
    ensures Sound(Added(table, name, sp)) && Has(Added(table, name, sp), name)
  {
    WithNameSound(table, name);
    ExtendedAt(WithName(table, name), name, sp);
  }

  lemma ExtendedAt(t: seq<Entry>, name: string, sp: Span)
    requires Sound(t) && Has(t, name)
    ensures var i := Place(t, name); var t' := t[i := Extended(t[i], sp)];
            Sound(t') && Place(t', name) == i
  {
    hide Inserted, AllBytes, StrCmp, ByStart, Place;
    var i := Place(t, name);
    var t' := t[i := Extended(t[i], sp)];
    PlaceFacts(t, name);
    StrCmpZero(name, name);
    InsertedByStart(t[i].spans, sp);
    InsertedBytes(t[i].spans, sp);
    AddMod(t[i].size, AllBytes(t[i].spans), Bytes(sp));
    PlaceIs(t', name, i);
  }

  lemma Replaced(t: seq<Entry>, i: nat, sp: Span)
    requires ByName(t) && i < |t|
    ensures ByName(t[i := Extended(t[i], sp)])
  {
  }

  lemma AddMod(x: int, y: int, z: int)
    requires x == y % WORD
    ensures (x + z) % WORD == (y + z) % WORD
  {
  }

  // ---------- runs ----------

  datatype Request = Request(name: string, span: Span)

  /** The table after these calls of `add_mem_map`. */
  ghost function Run(rs: seq<Request>): seq<Entry> {
    if rs == [] then [] else
    var r := rs[|rs| - 1];
    Added(Run(rs[..|rs| - 1]), r.name, r.span)
  }

  /** The ranges of `name`, as the calls gave them. */
  ghost function Given(rs: seq<Request>, name: string): seq<Span> {
    if rs == [] then [] else
    var r := rs[|rs| - 1];
    Given(rs[..|rs| - 1], name) + if r.name == name then [r.span] else []
  }

  ghost function SpansOf(table: seq<Entry>, name: string): seq<Span> {
    if Has(table, name) then table[Place(table, name)].spans else []
  }

  ghost function Sum(f: Entry -> int, table: seq<Entry>): int {
    if table == [] then 0 else f(table[0]) + Sum(f, table[1..])
  }

  ghost function SizeOf(e: Entry): int {
    e.size
  }

  ghost function BytesOf(e: Entry): int {
    AllBytes(e.spans)
  }

  ghost function SumGiven(rs: seq<Request>): int {
    if rs == [] then 0 else SumGiven(rs[..|rs| - 1]) + Bytes(rs[|rs| - 1].span)
  }

  lemma RunNothing()
    ensures Run([]) == []
  {
  }

  lemma RunOne(rs: seq<Request>, i: nat)
    requires i < |rs|
    ensures rs[..0] == [] && Run(rs[..i + 1]) == Added(Run(rs[..i]), rs[i].name, rs[i].span)
  {
    assert rs[..i + 1][..i] == rs[..i];
  }

  /** Every run keeps the table sound, and the ranges in it have as many bytes as were ever added. */
  lemma {:induction false} RunSound(rs: seq<Request>)
    ensures Sound(Run(rs))
    ensures Sum(BytesOf, Run(rs)) == SumGiven(rs)
  {
    hide Added, Sound, Sum;
    SumNothing();
    if rs != [] {
      var before, r := rs[..|rs| - 1], rs[|rs| - 1];
      RunSound(before);
      AddedSound(Run(before), r.name, r.span);
      AddedBytes(Run(before), r.name, r.span);
    }
  }

  lemma SumNothing()
    ensures Sound([]) && Sum(BytesOf, []) == 0
  {
  }

  /** The sizes in the table add up to all bytes ever added, modulo 2^64. */
  lemma RunSizes(rs: seq<Request>)
    ensures Sum(SizeOf, Run(rs)) % 0x1_0000_0000_0000_0000 == SumGiven(rs) % 0x1_0000_0000_0000_0000
  {
    hide Run;
    RunSound(rs);
    SizesMod(Run(rs));
  }

  lemma {:induction false} SizesMod(table: seq<Entry>)
    requires forall i | 0 <= i < |table| :: Consistent(table[i])
    ensures Sum(SizeOf, table) % WORD == Sum(BytesOf, table) % WORD
  {
    if table != [] {
      SizesMod(table[1..]);
      AddMods(table[0].size, BytesOf(table[0]), Sum(SizeOf, table[1..]), Sum(BytesOf, table[1..]));
    }
  }

  lemma AddMods(x: int, y: int, u: int, v: int)
    requires x == y % WORD && u % WORD == v % WORD
    ensures (x + u) % WORD == (y + v) % WORD
  {
  }

  /** Without overflow all the sizes are exact, and they add up to all bytes ever added. */
  lemma RunExact(rs: seq<Request>)
    requires (forall r | r in rs :: r.span.start <= r.span.end) && SumGiven(rs) < 0x1_0000_0000_0000_0000
    ensures Sum(SizeOf, Run(rs)) == SumGiven(rs)
    ensures forall e | e in Run(rs) :: e.size == AllBytes(e.spans)
  {
    RunSound(rs);
    RunFilled(rs);
    SizesExact(Run(rs));
  }

  ghost predicate Filled(table: seq<Entry>) {
    forall i | 0 <= i < |table| :: BytesOf(table[i]) >= 0
  }

  lemma {:induction false} RunFilled(rs: seq<Request>)
    requires forall r | r in rs :: r.span.start <= r.span.end
    ensures Filled(Run(rs))
  {
    if rs != [] {
      var before, r := rs[..|rs| - 1], rs[|rs| - 1];
      RunFilled(before);
      RunSound(before);
      AddedFilled(Run(before), r.name, r.span);
    }
  }

  lemma AddedFilled(table: seq<Entry>, name: string, sp: Span)
    requires Sound(table) && Filled(table) && sp.start <= sp.end
    ensures Filled(Added(table, name, sp))
  {
    hide Inserted, StrCmp, Place;
    WithNameSound(table, name);
    var w, i := WithName(table, name), Place(WithName(table, name), name);
    assert Filled(w);
    InsertedBytes(w[i].spans, sp);
  }

  lemma {:induction false} SizesExact(table: seq<Entry>)
    requires Filled(table) && (forall i | 0 <= i < |table| :: Consistent(table[i])) && Sum(BytesOf, table) < WORD
    ensures 0 <= Sum(SizeOf, table) == Sum(BytesOf, table)
    ensures forall e | e in table :: e.size == AllBytes(e.spans)
  {
    if table != [] {
      SumFilled(table[1..]);
      SizesExact(table[1..]);
    }
  }

  lemma {:induction false} SumFilled(table: seq<Entry>)
    requires Filled(table)
    ensures Sum(BytesOf, table) >= 0
  {
    if table != [] {
      SumFilled(table[1..]);
    }
  }

  lemma AddedBytes(table: seq<Entry>, name: string, sp: Span)
    requires Sound(table)
    ensures Sum(BytesOf, Added(table, name, sp)) == Sum(BytesOf, table) + Bytes(sp)
  {
    hide Sound, Sum, WithName, Place, Inserted;
    WithNameSound(table, name);
    WithNameBytes(table, name);
    var w, i := WithName(table, name), Place(WithName(table, name), name);
    InsertedBytes(w[i].spans, sp);
    SumReplaced(BytesOf, w, i, Extended(w[i], sp));
  }

  lemma WithNameBytes(table: seq<Entry>, name: string)
    ensures Sum(BytesOf, WithName(table, name)) == Sum(BytesOf, table)
  {
    var i := Place(table, name);
    assert table == table[..i] + table[i..];
    SumCat(BytesOf, table[..i], table[i..]);
    SumAround(BytesOf, table[..i], Entry(name, [], 0), table[i..]);
  }

  lemma SumReplaced(f: Entry -> int, t: seq<Entry>, i: nat, e: Entry)
    requires i < |t|
    ensures Sum(f, t[i := e]) == Sum(f, t) - f(t[i]) + f(e)
  {
    assert t == t[..i] + [t[i]] + t[i + 1..] && t[i := e] == t[..i] + [e] + t[i + 1..];
    SumAround(f, t[..i], t[i], t[i + 1..]);
    SumAround(f, t[..i], e, t[i + 1..]);
  }

  lemma SumAround(f: Entry -> int, a: seq<Entry>, e: Entry, b: seq<Entry>)
    ensures Sum(f, a + [e] + b) == Sum(f, a) + Sum(f, b) + f(e)
  {
    SumCat(f, a + [e], b);
    SumCat(f, a, [e]);
    assert [e][1..] == [];
  }

  lemma {:induction false} SumCat(f: Entry -> int, a: seq<Entry>, b: seq<Entry>)
    ensures Sum(f, a + b) == Sum(f, a) + Sum(f, b)
  {
    if a == [] {
      assert a + b == b;
    } else {
      assert (a + b)[1..] == a[1..] + b;
      SumCat(f, a[1..], b);
    }
  }

  /** In every run the ranges of a name are those given for it, sorted by start, equal starts
      in the order in which they were given. */
  lemma {:induction false} RunStable(rs: seq<Request>, name: string, start: int)
    ensures Has(Run(rs), name) <==> exists r :: r in rs && r.name == name
    ensures ByStart(SpansOf(Run(rs), name))
    ensures multiset(SpansOf(Run(rs), name)) == multiset(Given(rs, name))
    ensures At(SpansOf(Run(rs), name), start) == At(Given(rs, name), start)
  {
    if rs != [] {
      var before, r := rs[..|rs| - 1], rs[|rs| - 1];
      RunLast(rs, name);
      hide *;
      GivenName(rs, name);
      RunStable(before, name, start);
      RunSound(before);
      StableStep(Run(before), r, name, start, Given(before, name));
    }
  }

  lemma GivenName(rs: seq<Request>, name: string)
    requires rs != []
    ensures (exists r :: r in rs && r.name == name) <==>
              (exists r :: r in rs[..|rs| - 1] && r.name == name) || rs[|rs| - 1].name == name
  {
    assert rs == rs[..|rs| - 1] + [rs[|rs| - 1]];
  }

  lemma RunLast(rs: seq<Request>, name: string)
    requires rs != []
    ensures var before, r := rs[..|rs| - 1], rs[|rs| - 1];
            && Run(rs) == Added(Run(before), r.name, r.span)
            && Given(rs, name) == Given(before, name) + if r.name == name then [r.span] else []
  {
  }

  lemma StableStep(table: seq<Entry>, r: Request, name: string, start: int, given: seq<Span>)
    requires Sound(table) && ByStart(SpansOf(table, name))
    requires multiset(SpansOf(table, name)) == multiset(given) && At(SpansOf(table, name), start) == At(given, start)
    ensures var t, g := Added(table, r.name, r.span), given + if r.name == name then [r.span] else [];
            && (Has(t, name) <==> Has(table, name) || r.name == name) && ByStart(SpansOf(t, name))
            && multiset(SpansOf(t, name)) == multiset(g) && At(SpansOf(t, name), start) == At(g, start)
  {
    hide *;
    AddedSpans(table, r.name, r.span, name);
    if r.name == name {
      InsertedByStart(SpansOf(table, name), r.span);
      InsertedAt(SpansOf(table, name), r.span, start);
      InsertedBytes(SpansOf(table, name), r.span);
      AtCat(given, [r.span], start);
      AtOne(r.span, start);
    } else {
      assert given + [] == given;
    }
  }

  /** One call changes the ranges of one name. */
  lemma AddedSpans(table: seq<Entry>, name: string, sp: Span, other: string)
    requires Sound(table)
    ensures SpansOf(Added(table, name, sp), other)
         == if other == name then Inserted(SpansOf(table, name), sp) else SpansOf(table, other)
    ensures Has(Added(table, name, sp), other) <==> Has(table, other) || other == name
  {
    AddedSound(table, name, sp);
    WithNameSound(table, name);
    ExtendedAt(WithName(table, name), name, sp);
    if other != name {
      var t := Added(table, name, sp);
      forall e: Entry | e.name == other
        ensures e in t <==> e in table
      {
        OtherEntry(table, name, sp, e);
      }
      LookUp(t, other);
      LookUp(table, other);
    }
  }

  lemma OtherEntry(table: seq<Entry>, name: string, sp: Span, e: Entry)
    requires Sound(table) && e.name != name
    ensures e in Added(table, name, sp) <==> e in table
  {
    WithNameSound(table, name);
    var w, i := WithName(table, name), Place(table, name);
    var x := Extended(w[i], sp);
    assert x.name == name == w[i].name && Added(table, name, sp) == w[i := x];
    if !Has(table, name) {
      OtherInserted(table, i, Entry(name, [], 0), e);
    }
    OtherReplaced(w, i, x, e);
  }

  lemma OtherInserted(t: seq<Entry>, i: nat, x: Entry, e: Entry)
    requires i <= |t| && e.name != x.name
    ensures e in t[..i] + [x] + t[i..] <==> e in t
  {
    assert t == t[..i] + t[i..];
  }

  lemma OtherReplaced(t: seq<Entry>, i: nat, x: Entry, e: Entry)
    requires i < |t| && e.name != x.name && e.name != t[i].name
    ensures e in t[i := x] <==> e in t
  {
    assert t == t[..i] + [t[i]] + t[i + 1..] && t[i := x] == t[..i] + [x] + t[i + 1..];
  }

  lemma LookUp(table: seq<Entry>, name: string)
    requires Sound(table)
    ensures Has(table, name) <==> exists e :: e in table && e.name == name
    ensures forall e | e in table && e.name == name :: Has(table, name) && e == table[Place(table, name)]
  {
    PlaceFacts(table, name);
    StrCmpZero(name, name);
  }
}
