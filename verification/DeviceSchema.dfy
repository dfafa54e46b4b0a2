/** Device descriptions: what the loader accepts, and what that guarantees. */
module DeviceSchema {

  import opened MachineTypes

  /** Unknown stands for any other type name; the loader refuses it. */
  datatype FieldType = UInt16 | Int16 | UInt32 | Int32 | Unknown

  datatype BitField = BitField(mask: bv16, shift: nat, name: string)

  datatype Field = Field(
    offset: byte, name: string, ftype: FieldType, scale: real, unit: string,
    sentinel: Option<bv32>, bitsGiven: bool, bits: seq<BitField>)

  datatype RegisterDef = RegisterDef(addr: uint16, fc: bv8, isStorage: bool, offsetGiven: bool, field: Field)

  datatype RegisterGroup = RegisterGroup(
    name: string, startAddr: uint16, count: byte, fc: bv8, isStorage: bool, fields: seq<Field>)

  const MAX_GROUP_COUNT: nat := 125

  function WordSize(t: FieldType): nat {
    if t.UInt32? || t.Int32? then 2 else 1
  }

  // ----- Word coverage of a group ----------------------------------------------------

  predicate Fits(f: Field, count: nat) {
    f.offset + WordSize(f.ftype) <= count
  }

  predicate Occupies(f: Field, w: nat) {
    f.offset <= w < f.offset + WordSize(f.ftype)
  }

  predicate Overlap(f: Field, g: Field) {
    f.offset < g.offset + WordSize(g.ftype) && g.offset < f.offset + WordSize(f.ftype)
  }

  /** Every field lies within the group's words, and no two share one. */
  predicate WellLaid(fields: seq<Field>, count: nat) {
    && (forall i | 0 <= i < |fields| :: Fits(fields[i], count))
    && (forall i, j | 0 <= i < j < |fields| :: !Overlap(fields[i], fields[j]))
  }

  function Widths(fields: seq<Field>): nat {
    if fields == [] then 0 else Widths(fields[..|fields| - 1]) + WordSize(fields[|fields| - 1].ftype)
  }

  function Marked(covered: seq<bool>): nat {
    if covered == [] then 0 else Marked(covered[1..]) + if covered[0] then 1 else 0
  }

  lemma {:induction false} MarkOne(covered: seq<bool>, w: nat)
    requires w < |covered| && !covered[w]
    ensures Marked(covered[w := true]) == Marked(covered) + 1
  {
    if w > 0 {
      assert covered[w := true][1..] == covered[1..][w - 1 := true];
      MarkOne(covered[1..], w - 1);
    } else {
      assert covered[w := true][1..] == covered[1..];
    }
  }

  lemma {:induction false} NoneMarked(covered: seq<bool>)
    requires forall w | 0 <= w < |covered| :: !covered[w]
    ensures Marked(covered) == 0
  {
    if covered != [] {
      NoneMarked(covered[1..]);
    }
  }

  lemma {:induction false} MarkedAppend(covered: seq<bool>, b: bool)
    ensures Marked(covered + [b]) == Marked(covered) + if b then 1 else 0
  {
    if covered == [] {
      assert covered + [b] == [b];
    } else {
      assert (covered + [b])[1..] == covered[1..] + [b];
      MarkedAppend(covered[1..], b);
    }
  }

  /** Some field covers word `w`. */
  predicate Taken(fields: seq<Field>, w: nat) {
    exists j :: 0 <= j < |fields| && Occupies(fields[j], w)
  }

  lemma TakenLast(fields: seq<Field>, f: Field, w: nat)
    ensures Taken(fields + [f], w) <==> Taken(fields, w) || Occupies(f, w)
  {
    var all := fields + [f];
    if Occupies(f, w) {
      assert Occupies(all[|fields|], w);
    }
    if Taken(fields, w) {
      var j :| 0 <= j < |fields| && Occupies(fields[j], w);
      assert Occupies(all[j], w);
    }
  }

  /** Two fields overlap exactly when they share a word. */
  lemma OverlapShares(f: Field, g: Field, w: nat)
    ensures Occupies(f, w) && Occupies(g, w) ==> Overlap(f, g)
    ensures Overlap(f, g) ==>
              var v := if f.offset < g.offset then g.offset else f.offset; Occupies(f, v) && Occupies(g, v)
  {
  }

  /** A further field keeps the list well laid exactly when it fits and its words are free. */
  lemma WellLaidNext(fields: seq<Field>, f: Field, count: nat)
    requires WellLaid(fields, count) && Fits(f, count)
    ensures WellLaid(fields + [f], count) <==> forall w | f.offset <= w < f.offset + WordSize(f.ftype) :: !Taken(fields, w)
  {
    var all := fields + [f];
    if forall w | f.offset <= w < f.offset + WordSize(f.ftype) :: !Taken(fields, w) {
      forall i, j | 0 <= i < j < |all|
        ensures !Overlap(all[i], all[j])
      {
        if j < |fields| {
          assert all[i] == fields[i] && all[j] == fields[j];
        } else {
          var v := if fields[i].offset < f.offset then f.offset else fields[i].offset;
          OverlapShares(fields[i], f, v);
          assert Occupies(fields[i], v) ==> Taken(fields, v);
        }
      }
    } else {
      var w :| f.offset <= w < f.offset + WordSize(f.ftype) && Taken(fields, w);
      var j :| 0 <= j < |fields| && Occupies(fields[j], w);
      OverlapShares(fields[j], f, w);
      assert Overlap(all[j], all[|fields|]);
    }
  }

  /** Why a group's fields were refused, at the first field that does not do. */
  datatype Verdict = Accepted(unmapped: nat) | Exceeds(field: nat) | Overlaps(field: nat, word: nat)

  /** Marks the words of one more field; stops at the first that is taken. */
  method MarkField(covered: array<bool>, count: nat, ghost fields: seq<Field>, f: Field) returns (clash: Option<nat>)
    requires count <= covered.Length && Fits(f, count)
    requires forall w | 0 <= w < covered.Length :: covered[w] <==> Taken(fields, w)
    modifies covered
    ensures clash.Some? ==> Occupies(f, clash.value) && Taken(fields, clash.value)
    ensures clash.None? ==>
              && (forall w | f.offset <= w < f.offset + WordSize(f.ftype) :: !Taken(fields, w))
              && (forall w | 0 <= w < covered.Length :: covered[w] <==> Taken(fields + [f], w))
              && Marked(covered[..count]) == Marked(old(covered[..count])) + WordSize(f.ftype)
  {
    hide Taken;
    var ws := WordSize(f.ftype);
    var k := 0;
    while k < ws
      invariant 0 <= k <= ws
      invariant forall w | f.offset <= w < f.offset + k :: !Taken(fields, w)
      invariant forall w | 0 <= w < covered.Length :: covered[w] <==> f.offset <= w < f.offset + k || Taken(fields, w)
      invariant Marked(covered[..count]) == Marked(old(covered[..count])) + k
    {
      if covered[f.offset + k] {
        return Some(f.offset + k);
      }
      MarkOne(covered[..count], f.offset + k);
      ghost var before := covered[..count];
      covered[f.offset + k] := true;
      assert covered[..count] == before[f.offset + k := true];
      k := k + 1;
    }
    forall w | 0 <= w < covered.Length
      ensures covered[w] <==> Taken(fields + [f], w)
    {
      TakenLast(fields, f, w);
    }
    clash := None;
  }

  method CountUnmapped(covered: array<bool>, count: nat) returns (unmapped: nat)
    requires count <= covered.Length
    ensures unmapped == count - Marked(covered[..count])
  {
    unmapped := 0;
    var w := 0;
    while w < count
      invariant 0 <= w <= count && unmapped == w - Marked(covered[..w])
    {
      if !covered[w] {
        unmapped := unmapped + 1;
      }
      MarkedAppend(covered[..w], covered[w]);
      assert covered[..w + 1] == covered[..w] + [covered[w]];
      w := w + 1;
    }
  }

  /** The coverage loop: accepts exactly the well-laid field lists, and then
      counts exactly the words no field covers; otherwise it names the first
      field that leaves the group or runs into an earlier one. */
  method CheckCoverage(fields: seq<Field>, count: nat) returns (verdict: Verdict)
    requires 0 < count <= MAX_GROUP_COUNT
    ensures verdict.Accepted? <==> WellLaid(fields, count)
    ensures verdict.Accepted? ==> verdict.unmapped == count - Widths(fields)
    ensures verdict.Exceeds? ==>
              verdict.field < |fields| && WellLaid(fields[..verdict.field], count) && !Fits(fields[verdict.field], count)
    ensures verdict.Overlaps? ==>
              && verdict.field < |fields| && WellLaid(fields[..verdict.field], count)
              && Fits(fields[verdict.field], count) && Occupies(fields[verdict.field], verdict.word)
              && Taken(fields[..verdict.field], verdict.word)
  {
    hide Taken, WellLaid;
    var covered := new bool[MAX_GROUP_COUNT](_ => false);
    NoneMarked(covered[..count]);
    Nothing(count);
    var i := 0;
    while i < |fields|
      invariant 0 <= i <= |fields| && WellLaid(fields[..i], count)
      invariant forall w | 0 <= w < covered.Length :: covered[w] <==> Taken(fields[..i], w)
      invariant Marked(covered[..count]) == Widths(fields[..i])
    {
      var f := fields[i];
      assert fields[..i + 1] == fields[..i] + [f];
      if f.offset + WordSize(f.ftype) > count {
        RefusedPrefix(fields, i, count);
        return Exceeds(i);
      }
      WellLaidNext(fields[..i], f, count);
      var clash := MarkField(covered, count, fields[..i], f);
      if clash.Some? {
        RefusedPrefix(fields, i, count);
        return Overlaps(i, clash.value);
      }
      i := i + 1;
    }
    assert fields[..|fields|] == fields;
    var unmapped := CountUnmapped(covered, count);
    verdict := Accepted(unmapped);
  }

  lemma Nothing(count: nat)
    ensures WellLaid([], count) && forall w: nat :: !Taken([], w)
  {
  }

  /** A list with a refused prefix is refused. */
  lemma RefusedPrefix(fields: seq<Field>, i: nat, count: nat)
    requires i < |fields|
    ensures !Fits(fields[i], count) ==> !WellLaid(fields, count)
    ensures !WellLaid(fields[..i + 1], count) ==> !WellLaid(fields, count)
  {
  }

  // ----- Published names ------------------------------------------------------------------

  function BitNames(bits: seq<BitField>): seq<string> {
    if bits == [] then [] else [bits[0].name] + BitNames(bits[1..])
  }

  /** A field publishes its own name, or those of its bits instead. */
  function FieldNames(f: Field): seq<string> {
    if f.bits == [] then [f.name] else BitNames(f.bits)
  }

  function FieldsNames(fields: seq<Field>): seq<string> {
    if fields == [] then [] else FieldNames(fields[0]) + FieldsNames(fields[1..])
  }

  function RegisterNames(regs: seq<RegisterDef>): seq<string> {
    if regs == [] then [] else FieldNames(regs[0].field) + RegisterNames(regs[1..])
  }

  function GroupNames(groups: seq<RegisterGroup>): seq<string> {
    if groups == [] then [] else FieldsNames(groups[0].fields) + GroupNames(groups[1..])
  }

  function PublishedNames(regs: seq<RegisterDef>, groups: seq<RegisterGroup>): seq<string> {
    RegisterNames(regs) + GroupNames(groups)
  }

  predicate Distinct<T(==)>(s: seq<T>) {
    forall i, j | 0 <= i < j < |s| :: s[i] != s[j]
  }

  lemma DistinctPrefix<T>(a: seq<T>, b: seq<T>)
    requires Distinct(a + b)
    ensures Distinct(a)
  {
    assert forall i | 0 <= i < |a| :: a[i] == (a + b)[i];
  }

  /** One more name: compared with all that came before. */
  method AddName(seen: seq<string>, name: string) returns (ok: bool)
    requires Distinct(seen)
    ensures ok <==> Distinct(seen + [name])
  {
    var all := seen + [name];
    var i := 0;
    while i < |seen|
      invariant 0 <= i <= |seen|
      invariant forall j | 0 <= j < i :: seen[j] != name
    {
      if seen[i] == name {
        assert all[i] == all[|seen|];
        return false;
      }
      i := i + 1;
    }
    ok := true;
  }

  lemma BitNamesAt(bits: seq<BitField>, i: nat)
    requires i < |bits|
    ensures BitNames(bits[i..]) == [bits[i].name] + BitNames(bits[i + 1..])
  {
    assert bits[i..][1..] == bits[i + 1..];
  }

  lemma FieldsNamesAt(fields: seq<Field>, i: nat)
    requires i < |fields|
    ensures FieldsNames(fields[i..]) == FieldNames(fields[i]) + FieldsNames(fields[i + 1..])
  {
    assert fields[i..][1..] == fields[i + 1..];
  }

  lemma RegisterNamesAt(regs: seq<RegisterDef>, i: nat)
    requires i < |regs|
    ensures RegisterNames(regs[i..]) == FieldNames(regs[i].field) + RegisterNames(regs[i + 1..])
  {
    assert regs[i..][1..] == regs[i + 1..];
  }

  lemma GroupNamesAt(groups: seq<RegisterGroup>, i: nat)
    requires i < |groups|
    ensures GroupNames(groups[i..]) == FieldsNames(groups[i].fields) + GroupNames(groups[i + 1..])
  {
    assert groups[i..][1..] == groups[i + 1..];
  }

  /** Nothing named yet, and nothing left to name. */
  lemma NameEnds(seen: seq<string>, fields: seq<Field>, bits: seq<BitField>, regs: seq<RegisterDef>, groups: seq<RegisterGroup>)
    ensures fields[0..] == fields && bits[0..] == bits && regs[0..] == regs && groups[0..] == groups
    ensures seen + FieldsNames(fields[|fields|..]) == seen == seen + BitNames(bits[|bits|..])
    ensures seen + RegisterNames(regs[|regs|..]) == seen == seen + GroupNames(groups[|groups|..])
  {
  }

  /** Moving `names` from what is left to what has been seen; if they clash there,
      the whole list has a clash. */
  lemma MoveNames(seen: seq<string>, names: seq<string>, rest: seq<string>)
    ensures seen + (names + rest) == (seen + names) + rest
    ensures Distinct(seen + (names + rest)) ==> Distinct(seen + names)
  {
    Regroup(seen, names, rest);
    if Distinct(seen + (names + rest)) {
      DistinctPrefix(seen + names, rest);
    }
  }

  method AddFieldNames(seen: seq<string>, f: Field) returns (ok: bool, seen': seq<string>)
    requires Distinct(seen)
    ensures ok <==> Distinct(seen + FieldNames(f))
    ensures ok ==> seen' == seen + FieldNames(f)
  {
    seen' := seen;
    if f.bits == [] {
      ok := AddName(seen, f.name);
      seen' := seen + [f.name];
      return;
    }
    hide Distinct, BitNames;
    NameEnds(seen, [], f.bits, [], []);
    var i := 0;
    while i < |f.bits|
      invariant 0 <= i <= |f.bits| && Distinct(seen')
      invariant seen + BitNames(f.bits) == seen' + BitNames(f.bits[i..])
    {
      BitNamesAt(f.bits, i);
      MoveNames(seen', [f.bits[i].name], BitNames(f.bits[i + 1..]));
      ok := AddName(seen', f.bits[i].name);
      if !ok {
        return;
      }
      seen' := seen' + [f.bits[i].name];
      i := i + 1;
    }
    NameEnds(seen', [], f.bits, [], []);
    ok := true;
  }

  method AddAllNames(seen: seq<string>, fields: seq<Field>) returns (ok: bool, seen': seq<string>)
    requires Distinct(seen)
    ensures ok <==> Distinct(seen + FieldsNames(fields))
    ensures ok ==> seen' == seen + FieldsNames(fields)
  {
    hide Distinct, FieldNames, FieldsNames;
    NameEnds(seen, fields, [], [], []);
    seen' := seen;
    var i := 0;
    while i < |fields|
      invariant 0 <= i <= |fields| && Distinct(seen')
      invariant seen + FieldsNames(fields) == seen' + FieldsNames(fields[i..])
    {
      FieldsNamesAt(fields, i);
      MoveNames(seen', FieldNames(fields[i]), FieldsNames(fields[i + 1..]));
      var next;
      ok, next := AddFieldNames(seen', fields[i]);
      if !ok {
        return;
      }
      seen' := next;
      i := i + 1;
    }
    NameEnds(seen', fields, [], [], []);
    ok := true;
  }

  method AddRegisterNames(regs: seq<RegisterDef>) returns (ok: bool, seen: seq<string>)
    ensures ok <==> Distinct(RegisterNames(regs))
    ensures ok ==> seen == RegisterNames(regs)
  {
    seen := [];
    assert Distinct(seen) && seen + RegisterNames(regs) == RegisterNames(regs);
    hide Distinct, FieldNames, RegisterNames;
    NameEnds(seen, [], [], regs, []);
    var i := 0;
    while i < |regs|
      invariant 0 <= i <= |regs| && Distinct(seen)
      invariant RegisterNames(regs) == seen + RegisterNames(regs[i..])
    {
      RegisterNamesAt(regs, i);
      MoveNames(seen, FieldNames(regs[i].field), RegisterNames(regs[i + 1..]));
      var next;
      ok, next := AddFieldNames(seen, regs[i].field);
      if !ok {
        return;
      }
      seen := next;
      i := i + 1;
    }
    NameEnds(seen, [], [], regs, []);
    ok := true;
  }

  /** Accepts a description exactly when the names it publishes, over flat
      registers, group fields and their bits, are pairwise different. */
  method CheckDuplicateNames(regs: seq<RegisterDef>, groups: seq<RegisterGroup>) returns (ok: bool)
    ensures ok <==> Distinct(PublishedNames(regs, groups))
  {
    hide Distinct, FieldsNames, RegisterNames, GroupNames;
    var seen;
    ok, seen := AddRegisterNames(regs);
    if !ok {
      MoveNames([], RegisterNames(regs), GroupNames(groups));
      assert [] + RegisterNames(regs) == RegisterNames(regs);
      assert [] + (RegisterNames(regs) + GroupNames(groups)) == PublishedNames(regs, groups);
      return;
    }
    NameEnds(seen, [], [], [], groups);
    var i := 0;
    while i < |groups|
      invariant 0 <= i <= |groups| && Distinct(seen)
      invariant PublishedNames(regs, groups) == seen + GroupNames(groups[i..])
    {
      GroupNamesAt(groups, i);
      MoveNames(seen, FieldsNames(groups[i].fields), GroupNames(groups[i + 1..]));
      var next;
      ok, next := AddAllNames(seen, groups[i].fields);
      if !ok {
        return;
      }
      seen := next;
      i := i + 1;
    }
    NameEnds(seen, [], [], [], groups);
    ok := true;
  }

  // ----- The whole description -------------------------------------------------------------

  const MAX_SUPPORTED_SCHEMA_VERSION: int := 2

  predicate ValidBit(b: BitField) {
    b.name != "" && b.mask != 0 && b.mask != 0xFFFF && b.shift < 16
  }

  /** Sentinels and bits need the second schema, and bits, even an empty list of
      them, a plain word. */
  predicate ValidField(f: Field, schema: int) {
    && f.name != "" && !f.ftype.Unknown?
    && (schema < 2 ==> f.sentinel == None && !f.bitsGiven)
    && (f.bitsGiven ==> f.ftype.UInt16?)
    && (f.bits != [] ==> f.bitsGiven)
    && forall i | 0 <= i < |f.bits| :: ValidBit(f.bits[i])
  }

  /** An offset, even zero, is for group fields only. */
  predicate ValidRegister(r: RegisterDef, schema: int) {
    (r.fc == 3 || r.fc == 4) && !r.offsetGiven && r.field.offset == 0 && ValidField(r.field, schema)
  }

  predicate ValidGroup(g: RegisterGroup, schema: int) {
    && g.name != "" && 1 <= g.count <= MAX_GROUP_COUNT && (g.fc == 3 || g.fc == 4)
    && g.fields != [] && (forall i | 0 <= i < |g.fields| :: ValidField(g.fields[i], schema))
    && WellLaid(g.fields, g.count)
  }

  /** What a description says: its groups, if it has the key at all. */
  datatype Description = Description(schema: int, registers: seq<RegisterDef>, groupsKey: Option<seq<RegisterGroup>>)

  function Groups(d: Description): seq<RegisterGroup> {
    if d.groupsKey.Some? then d.groupsKey.value else []
  }

  predicate ValidDescription(d: Description) {
    var schema, regs, groups := d.schema, d.registers, Groups(d);
    && 1 <= schema <= MAX_SUPPORTED_SCHEMA_VERSION
    && (forall i | 0 <= i < |regs| :: ValidRegister(regs[i], schema))
    && (d.groupsKey.Some? ==> schema >= 2)
    && (forall i | 0 <= i < |groups| :: ValidGroup(groups[i], schema))
    && Distinct(PublishedNames(regs, groups))
    && (regs != [] || groups != [])
  }

  method CheckGroup(g: RegisterGroup, schema: int) returns (ok: bool)
    ensures ok <==> ValidGroup(g, schema)
  {
    if g.name == "" || g.count == 0 || g.count > MAX_GROUP_COUNT || (g.fc != 3 && g.fc != 4) || g.fields == [] {
      return false;
    }
    var i := 0;
    while i < |g.fields|
      invariant 0 <= i <= |g.fields| && forall j | 0 <= j < i :: ValidField(g.fields[j], schema)
    {
      if !ValidField(g.fields[i], schema) {
        return false;
      }
      i := i + 1;
    }
    hide WellLaid;
    var verdict := CheckCoverage(g.fields, g.count);
    ok := verdict.Accepted?;
  }

  /** All a description says, apart from its being empty, on top of what was there before. */
  predicate ValidOnTop(d: Description, regs0: seq<RegisterDef>, groups0: seq<RegisterGroup>) {
    && 1 <= d.schema <= MAX_SUPPORTED_SCHEMA_VERSION
    && (forall i | 0 <= i < |d.registers| :: ValidRegister(d.registers[i], d.schema))
    && (d.groupsKey.Some? ==> d.schema >= 2)
    && (forall i | 0 <= i < |Groups(d)| :: ValidGroup(Groups(d)[i], d.schema))
    && Distinct(PublishedNames(regs0 + d.registers, groups0 + Groups(d)))
  }

  /** The loader's parser: adds to the lists it is given, entry by entry, until
      something does not do. Nothing is taken back on failure. */
  method Parse(d: Description, regs0: seq<RegisterDef>, groups0: seq<RegisterGroup>)
    returns (ok: bool, regs: seq<RegisterDef>, groups: seq<RegisterGroup>)
    ensures ok <==> ValidOnTop(d, regs0, groups0)
    ensures ok ==> regs == regs0 + d.registers && groups == groups0 + Groups(d)
    ensures exists m, n :: Added(d, regs0, groups0, regs, groups, m, n)
  {
    hide ValidRegister, ValidGroup, Distinct, PublishedNames;
    regs, groups := regs0, groups0;
    ok := false;
    assert Added(d, regs0, groups0, regs, groups, 0, 0);
    if d.schema < 1 || d.schema > MAX_SUPPORTED_SCHEMA_VERSION {
      return;
    }
    var i := 0;
    while i < |d.registers|
      invariant 0 <= i <= |d.registers| && groups == groups0 && Added(d, regs0, groups0, regs, groups, i, 0)
    {
      if !ValidRegister(d.registers[i], d.schema) {
        return;
      }
      regs := regs + [d.registers[i]];
      i := i + 1;
    }
    assert Added(d, regs0, groups0, regs, groups, i, 0);
    if d.groupsKey.Some? && d.schema < 2 {
      return;
    }
    var j := 0;
    while j < |Groups(d)|
      invariant 0 <= j <= |Groups(d)| && Added(d, regs0, groups0, regs, groups, i, j)
    {
      ok := CheckGroup(Groups(d)[j], d.schema);
      if !ok {
        return;
      }
      groups := groups + [Groups(d)[j]];
      j := j + 1;
    }
    assert d.registers[..i] == d.registers && Groups(d)[..j] == Groups(d);
    ok := CheckDuplicateNames(regs, groups);
  }

  /** The lists have grown by the first `m` registers and `n` groups, all of them valid. */
  predicate Added(d: Description, regs0: seq<RegisterDef>, groups0: seq<RegisterGroup>,
                  regs: seq<RegisterDef>, groups: seq<RegisterGroup>, m: nat, n: nat)
  {
    && m <= |d.registers| && n <= |Groups(d)|
    && regs == regs0 + d.registers[..m] && groups == groups0 + Groups(d)[..n]
    && (forall i | 0 <= i < m :: ValidRegister(d.registers[i], d.schema))
    && (forall i | 0 <= i < n :: ValidGroup(Groups(d)[i], d.schema))
  }

  /** The loader's verdict on a description with all values already extracted. */
  method CheckDescription(d: Description) returns (ok: bool)
    ensures ok <==> ValidDescription(d)
  {
    hide ValidRegister, ValidGroup, Distinct, PublishedNames;
    var regs, groups;
    ok, regs, groups := Parse(d, [], []);
    assert [] + d.registers == d.registers && [] + Groups(d) == Groups(d);
    ok := ok && (regs != [] || groups != []);
  }

  lemma {:induction false} RegisterNamesConcat(a: seq<RegisterDef>, b: seq<RegisterDef>)
    ensures RegisterNames(a + b) == RegisterNames(a) + RegisterNames(b)
  {
    hide FieldNames;
    if a == [] {
      assert a + b == b;
    } else {
      assert (a + b)[1..] == a[1..] + b;
      RegisterNamesConcat(a[1..], b);
      Regroup(FieldNames(a[0].field), RegisterNames(a[1..]), RegisterNames(b));
    }
  }

  lemma SomeName(f: Field)
    ensures FieldNames(f) != []
  {
  }

  /** So a device whose load failed behind its first register can not load the
      same registers again: what was left is in the way. */
  lemma LeftoversClash(regs: seq<RegisterDef>, m: nat, groups: seq<RegisterGroup>)
    requires 0 < m <= |regs|
    ensures !Distinct(PublishedNames(regs[..m] + regs, groups))
  {
    hide FieldNames;
    var names, first := RegisterNames(regs[..m]), FieldNames(regs[0].field);
    RegisterNamesConcat(regs[..m], regs);
    SomeName(regs[0].field);
    assert names == first + RegisterNames(regs[..m][1..]);
    assert RegisterNames(regs) == first + RegisterNames(regs[1..]);
    var all := PublishedNames(regs[..m] + regs, groups);
    assert all[0] == first[0] == all[|names|];
  }

  lemma Regroup<T>(a: seq<T>, b: seq<T>, c: seq<T>)
    ensures (a + b) + c == a + (b + c)
  {
  }

  // ----- What acceptance means ------------------------------------------------------------

  predicate FieldOf(d: Description, f: Field) {
    (exists r :: r in d.registers && r.field == f) || (exists g :: g in Groups(d) && f in g.fields)
  }

  /** Every field of an accepted description, in figures. */
  lemma AcceptedField(d: Description, f: Field)
    requires ValidDescription(d) && FieldOf(d, f)
    ensures f.name != "" && (f.ftype.UInt16? || f.ftype.Int16? || f.ftype.UInt32? || f.ftype.Int32?)
    ensures f.bits != [] ==> f.ftype.UInt16? && d.schema == 2
    ensures f.sentinel.Some? ==> d.schema == 2
    ensures forall b | b in f.bits :: b.name != "" && 0x0001 <= b.mask <= 0xFFFE && b.shift <= 15
  {
    hide Distinct, PublishedNames, WellLaid;
    if r :| r in d.registers && r.field == f {
      assert ValidRegister(r, d.schema);
    } else {
      var g :| g in Groups(d) && f in g.fields;
      assert ValidGroup(g, d.schema);
    }
    assert ValidField(f, d.schema);
    BitsInFigures(f, d.schema);
  }

  lemma BitsInFigures(f: Field, schema: int)
    requires ValidField(f, schema)
    ensures forall b | b in f.bits :: b.name != "" && 0x0001 <= b.mask <= 0xFFFE && b.shift <= 15
  {
    forall b | b in f.bits
      ensures b.name != "" && 0x0001 <= b.mask <= 0xFFFE && b.shift <= 15
    {
      assert ValidBit(b);
      MaskInFigures(b.mask);
    }
  }

  lemma MaskInFigures(m: bv16)
    requires m != 0 && m != 0xFFFF
    ensures 0x0001 <= m <= 0xFFFE
  {
  }

  /** Every register and group of an accepted description, in figures. */
  lemma AcceptedEntries(d: Description)
    requires ValidDescription(d)
    ensures d.schema == 1 || d.schema == 2
    ensures d.registers != [] || Groups(d) != []
    ensures d.schema == 1 ==> d.groupsKey == None
    ensures forall r | r in d.registers :: (r.fc == 3 || r.fc == 4) && !r.offsetGiven && r.field.offset == 0
    ensures forall g | g in Groups(d) :: g.name != "" && (g.fc == 3 || g.fc == 4) && 1 <= g.count <= 125 && g.fields != []
  {
    hide Distinct, PublishedNames, WellLaid, ValidField;
  }

  /** A description of one register that publishes a number, in figures. */
  lemma LoneRegisterAccepted(schema: int, r: RegisterDef)
    requires !r.field.bitsGiven && r.field.bits == []
    ensures ValidDescription(Description(schema, [r], None))
            <==> && (schema == 1 || schema == 2) && (r.fc == 3 || r.fc == 4)
                 && !r.offsetGiven && r.field.offset == 0 && r.field.name != "" && r.field.ftype != Unknown
                 && (schema == 1 ==> r.field.sentinel == None)
  {
    hide Distinct;
    var d := Description(schema, [r], None);
    LoneRegisterName(r);
    OneNameDiffers(r.field.name);
    assert ValidDescription(d) ==> ValidRegister(d.registers[0], schema);
  }

  /** A description of one group with one bit in it, in figures. */
  lemma LoneGroupAccepted(schema: int, g: RegisterGroup, f: Field, b: BitField)
    requires g.fields == [f] && f.bitsGiven && f.bits == [b]
    ensures ValidDescription(Description(schema, [], Some([g])))
            <==> && schema == 2 && g.name != "" && (g.fc == 3 || g.fc == 4) && g.count <= 125
                 && f.offset < g.count && f.name != "" && f.ftype == UInt16
                 && b.name != "" && b.mask != 0x0000 && b.mask != 0xFFFF && b.shift <= 15
  {
    hide Distinct;
    var d := Description(schema, [], Some([g]));
    LoneBitName(g, f, b);
    OneNameDiffers(b.name);
    assert ValidDescription(d) ==> ValidGroup(Groups(d)[0], schema);
    assert ValidGroup(g, schema) ==> ValidField(g.fields[0], schema) && Fits(g.fields[0], g.count);
    assert ValidField(f, schema) ==> ValidBit(f.bits[0]);
  }

  lemma LoneRegisterName(r: RegisterDef)
    requires r.field.bits == []
    ensures PublishedNames([r], []) == [r.field.name]
  {
    assert [r][1..] == [] && RegisterNames([]) == [];
    assert RegisterNames([r]) == FieldNames(r.field) + [];
  }

  lemma LoneBitName(g: RegisterGroup, f: Field, b: BitField)
    requires g.fields == [f] && f.bits == [b]
    ensures PublishedNames([], [g]) == [b.name]
  {
    assert [b][1..] == [] && BitNames([]) == [];
    assert FieldNames(f) == [b.name] + [];
    assert [f][1..] == [] && FieldsNames([]) == [];
    assert FieldsNames(g.fields) == FieldNames(f) + [];
    assert [g][1..] == [] && GroupNames([]) == [];
    assert GroupNames([g]) == FieldsNames(g.fields) + [];
  }

  lemma OneNameDiffers(name: string)
    ensures Distinct([name])
  {
  }

  /** No accepted description publishes an empty name. */
  lemma NoEmptyName(d: Description)
    requires ValidDescription(d)
    ensures "" !in PublishedNames(d.registers, Groups(d))
  {
    hide Distinct, FieldNames;
    forall f | FieldOf(d, f)
      ensures "" !in FieldNames(f)
    {
      AcceptedField(d, f);
      NamedBits(f);
    }
    RegistersNamed(d.registers);
    GroupsNamed(Groups(d));
  }

  lemma NamedBits(f: Field)
    requires f.name != "" && forall b | b in f.bits :: b.name != ""
    ensures "" !in FieldNames(f)
  {
    BitsNamed(f.bits);
  }

  lemma {:induction false} BitsNamed(bits: seq<BitField>)
    requires forall b | b in bits :: b.name != ""
    ensures "" !in BitNames(bits)
  {
    if bits != [] {
      BitsNamed(bits[1..]);
    }
  }

  lemma {:induction false} RegistersNamed(regs: seq<RegisterDef>)
    requires forall r | r in regs :: "" !in FieldNames(r.field)
    ensures "" !in RegisterNames(regs)
  {
    hide FieldNames;
    if regs != [] {
      RegistersNamed(regs[1..]);
    }
  }

  lemma {:induction false} FieldsNamed(fields: seq<Field>)
    requires forall f | f in fields :: "" !in FieldNames(f)
    ensures "" !in FieldsNames(fields)
  {
    hide FieldNames;
    if fields != [] {
      FieldsNamed(fields[1..]);
    }
  }

  lemma {:induction false} GroupsNamed(groups: seq<RegisterGroup>)
    requires forall g | g in groups :: forall f | f in g.fields :: "" !in FieldNames(f)
    ensures "" !in GroupNames(groups)
  {
    hide FieldNames, FieldsNames;
    if groups != [] {
      FieldsNamed(groups[0].fields);
      GroupsNamed(groups[1..]);
    }
  }
}
