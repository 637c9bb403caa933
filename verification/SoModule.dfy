// Script modules (tools/inspect_so.py): length-prefixed, NUL-terminated, padded strings, and the
// six sections of a module. The stored form of a string keeps its terminator, if it has one.
module SoModule {
  import opened Bytes
  import opened Codecs
  import opened Fields
  import opened Options

  const HEADER_END := 8

  // ---------- strings ----------

  predicate Terminated(raw: seq<Byte>) { raw != [] ==> raw[|raw| - 1] == 0 }

  // What a stored string reads as: the empty string has two stored forms.
  function Text(raw: seq<Byte>): seq<Byte> { if raw == [] then [] else raw[..|raw| - 1] }

  function TakeString(s: seq<Byte>): Option<Took<seq<Byte>>> {
    match TakeU32(s)
    case None => None
    case Some(t) =>
      var length, padding := t.value, Padding(t.value);
      if length > |t.rest| || !Terminated(t.rest[..length]) then None
      else if length + padding > |t.rest| || !AllZero(t.rest[length..length + padding]) then None
      else Some(Took(t.rest[..length], t.rest[length + padding..]))
  }

  ghost function StringBytes(raw: seq<Byte>): seq<Byte>
    requires |raw| < U32_LIMIT
  {
    U32Bytes(|raw|) + (raw + Zeros(Padding(|raw|)))
  }

  ghost predicate Storable(raw: seq<Byte>) { |raw| < U32_LIMIT && Terminated(raw) }

  ghost function Str(): Codec<seq<Byte>> {
    Codec(s => TakeString(s), raw => if Storable(raw) then StringBytes(raw) else [], raw => Storable(raw))
  }

  // The bytes behind the length word.
  lemma StringParts(s: seq<Byte>, raw: seq<Byte>, rest: seq<Byte>)
    requires TakeString(s) == Some(Took(raw, rest))
    ensures Storable(raw) && TakeU32(s) == Some(Took(|raw|, raw + (Zeros(Padding(|raw|)) + rest)))
  {
    hide U32At, AllZero, Zeros, Terminated, Padding;
    var t := TakeU32(s).value;
    var zeros := t.rest[t.value..t.value + Padding(t.value)];
    ZeroBytes(zeros);
    assert t.rest == raw + (zeros + rest);
  }

  lemma StringRead(s: seq<Byte>, raw: seq<Byte>, rest: seq<Byte>)
    requires TakeString(s) == Some(Took(raw, rest))
    ensures Storable(raw) && s == StringBytes(raw) + rest
  {
    hide TakeString, TakeU32, U32Bytes, AllZero, Zeros, Terminated, Padding;
    StringParts(s, raw, rest);
    var zeros := Zeros(Padding(|raw|));
    FieldTaken(s, 4, |raw|, raw + (zeros + rest));
    Reassociate(raw, zeros, rest);
    Reassociate(U32Bytes(|raw|), raw + zeros, rest);
  }

  lemma StringWritten(raw: seq<Byte>, rest: seq<Byte>)
    requires Storable(raw)
    ensures TakeString(StringBytes(raw) + rest) == Some(Took(raw, rest))
  {
    hide U32At, U32Bytes;
    var s := StringBytes(raw) + rest;
    var p := Padding(|raw|);
    var body := raw + (Zeros(p) + rest);
    assert s == U32Bytes(|raw|) + body;
    FieldTaken(s, 4, |raw|, body);
    assert body[..|raw|] == raw && body[|raw|..|raw| + p] == Zeros(p) && body[|raw| + p..] == rest;
  }

  lemma StringTaken(s: seq<Byte>, raw: seq<Byte>, rest: seq<Byte>)
    ensures TakeString(s) == Some(Took(raw, rest)) <==> Storable(raw) && s == StringBytes(raw) + rest
  {
    hide TakeString, StringBytes, Terminated;
    if TakeString(s) == Some(Took(raw, rest)) { StringRead(s, raw, rest); }
    if Storable(raw) { StringWritten(raw, rest); }
  }

  lemma StringSound()
    ensures Sound(Str())
  {
    hide TakeString, StringBytes, Terminated;
    forall s, raw, rest
      ensures TakeString(s) == Some(Took(raw, rest)) <==> Storable(raw) && s == StringBytes(raw) + rest
    {
      StringTaken(s, raw, rest);
    }
    forall raw | Storable(raw) ensures |StringBytes(raw)| % 4 == 0 {
      StringLength(raw);
    }
  }

  lemma StringLength(raw: seq<Byte>)
    requires Storable(raw)
    ensures |StringBytes(raw)| == 4 + |raw| + Padding(|raw|)
  {
  }

  // ---------- records, in stored form ----------

  ghost function Name(): Codec<seq<Byte>> { Where(Str(), raw => Printable(Text(raw))) }

  ghost function Flag(): Codec<nat> { Where(Word(), (v: nat) => v <= 1) }

  // The members of a type, the values of an enumeration.
  ghost function Pair(): Codec<(seq<Byte>, nat)> { Then(Name(), _ => Word()) }

  ghost function Pairs(): Codec<seq<(seq<Byte>, nat)>> { Counted(Pair()) }

  type StoredType = (seq<Byte>, (nat, (seq<Byte>, seq<(seq<Byte>, nat)>)))
  type StoredEnum = (seq<Byte>, (nat, seq<(seq<Byte>, nat)>))
  type StoredGlobal = (seq<Byte>, (seq<nat>, seq<nat>))
  type StoredCallable = (seq<Byte>, (seq<nat>, (nat, seq<nat>)))
  type StoredCode = (nat, (nat, seq<nat>))

  ghost function TypeRecords(): Codec<StoredType> {
    Then(Name(), _ => Then(Flag(), _ => Then(Name(), _ => Pairs())))
  }

  // An external enumeration has no values and no count.
  ghost function EnumValues(flag: nat): Codec<seq<(seq<Byte>, nat)>> {
    if flag == 0 then Pairs() else Nothing()
  }

  ghost function EnumRecords(): Codec<StoredEnum> { Then(Name(), _ => Then(Flag(), flag => EnumValues(flag))) }

  // n words of which the second is a flag.
  ghost function Flagged(n: nat): Codec<seq<nat>> {
    Where(Cells(n), (f: seq<nat>) => |f| == n && n > 1 && f[1] <= 1)
  }

  // The last of the four words of a global counts its initializer cells.
  ghost function Initializer(fields: seq<nat>): Codec<seq<nat>> {
    if |fields| == 4 then Cells(fields[3]) else Cells(0)
  }

  ghost function GlobalRecords(): Codec<StoredGlobal> {
    Then(Name(), _ => Then(Flagged(4), f => Initializer(f)))
  }

  ghost function CountedCells(): Codec<(nat, seq<nat>)> { Then(Word(), (n: nat) => Cells(n)) }

  ghost function CallableRecords(): Codec<StoredCallable> {
    Then(Name(), _ => Then(Flagged(10), _ => CountedCells()))
  }

  ghost function CodeSection(): Codec<StoredCode> {
    Then(Where(Word(), (v: nat) => v == HEADER_END), _ => CountedCells())
  }

  lemma BasicsSound()
    ensures Sound(Name()) && Sound(Flag()) && Sound(Pairs()) && Sound(CountedCells())
  {
    StringSound();
    WordSound();
    WhereSound(Str(), raw => Printable(Text(raw)));
    WhereSound(Word(), (v: nat) => v <= 1);
    ThenSound(Name(), _ => Word());
    CountedSound(Pair());
    forall n: nat ensures Sound(Cells(n)) { CellsSound(n); }
    ThenSound(Word(), (n: nat) => Cells(n));
  }

  lemma TypesSound()
    ensures Sound(TypeRecords()) && Sound(Counted(TypeRecords()))
  {
    hide Name, Flag, Pairs, Then, Counted;
    BasicsSound();
    ThenSound(Name(), _ => Pairs());
    ThenSound(Flag(), _ => Then(Name(), _ => Pairs()));
    ThenSound(Name(), _ => Then(Flag(), _ => Then(Name(), _ => Pairs())));
    CountedSound(TypeRecords());
  }

  lemma EnumsSound()
    ensures Sound(EnumRecords()) && Sound(Counted(EnumRecords()))
  {
    hide Name, Flag, Pairs, Then, Counted, Nothing;
    BasicsSound();
    NothingSound<(seq<Byte>, nat)>();
    forall flag: nat ensures Sound(EnumValues(flag)) {
    }
    ThenSound(Flag(), flag => EnumValues(flag));
    ThenSound(Name(), _ => Then(Flag(), flag => EnumValues(flag)));
    CountedSound(EnumRecords());
  }

  lemma FlaggedSound(n: nat)
    ensures Sound(Flagged(n))
  {
    hide Cells, Where;
    CellsSound(n);
    WhereSound(Cells(n), (f: seq<nat>) => |f| == n && n > 1 && f[1] <= 1);
  }

  lemma GlobalsSound()
    ensures Sound(GlobalRecords()) && Sound(Counted(GlobalRecords()))
  {
    hide Name, Then, Counted, Cells, Flagged;
    BasicsSound();
    FlaggedSound(4);
    forall f: seq<nat> ensures Sound(Initializer(f)) {
      CellsSound(if |f| == 4 then f[3] else 0);
    }
    ThenSound(Flagged(4), f => Initializer(f));
    ThenSound(Name(), _ => Then(Flagged(4), f => Initializer(f)));
    CountedSound(GlobalRecords());
  }

  lemma CallablesSound()
    ensures Sound(CallableRecords()) && Sound(Counted(CallableRecords()))
  {
    hide Name, Then, Counted, CountedCells, Flagged;
    BasicsSound();
    FlaggedSound(10);
    ThenSound(Flagged(10), _ => CountedCells());
    ThenSound(Name(), _ => Then(Flagged(10), _ => CountedCells()));
    CountedSound(CallableRecords());
  }

  lemma CodeSound()
    ensures Sound(CodeSection())
  {
    hide Then, CountedCells, Where, Word;
    BasicsSound();
    WordSound();
    WhereSound(Word(), (v: nat) => v == HEADER_END);
    ThenSound(Where(Word(), (v: nat) => v == HEADER_END), _ => CountedCells());
  }

  // ---------- the module ----------

  type StoredModule = (StoredCode, (seq<seq<Byte>>, (seq<StoredType>, (seq<StoredEnum>,
                       ((nat, seq<StoredGlobal>), seq<StoredCallable>)))))

  ghost function GlobalSection(): Codec<(nat, seq<StoredGlobal>)> { Then(Word(), _ => Counted(GlobalRecords())) }

  // The four sections behind the literals, the three behind the types, and so on.
  ghost function FromGlobals(): Codec<((nat, seq<StoredGlobal>), seq<StoredCallable>)> {
    Then(GlobalSection(), _ => Counted(CallableRecords()))
  }

  ghost function FromEnums(): Codec<(seq<StoredEnum>, ((nat, seq<StoredGlobal>), seq<StoredCallable>))> {
    Then(Counted(EnumRecords()), _ => FromGlobals())
  }

  ghost function FromTypes():
    Codec<(seq<StoredType>, (seq<StoredEnum>, ((nat, seq<StoredGlobal>), seq<StoredCallable>)))>
  {
    Then(Counted(TypeRecords()), _ => FromEnums())
  }

  ghost function FromLiterals():
    Codec<(seq<seq<Byte>>, (seq<StoredType>, (seq<StoredEnum>, ((nat, seq<StoredGlobal>), seq<StoredCallable>))))>
  {
    Then(Counted(Str()), _ => FromTypes())
  }

  ghost function Modules(): Codec<StoredModule> { Then(CodeSection(), _ => FromLiterals()) }

  // A module is taken exactly from its own bytes, and its bytes are whole words.
  lemma ModulesSound()
    ensures Sound(Modules())
  {
    hide Then, Counted, CodeSection, TypeRecords, EnumRecords, GlobalRecords, CallableRecords, Str, Word;
    CodeSound();
    StringSound();
    WordSound();
    TypesSound();
    EnumsSound();
    GlobalsSound();
    CallablesSound();
    ThenSound(Word(), _ => Counted(GlobalRecords()));
    ThenSound(GlobalSection(), _ => Counted(CallableRecords()));
    ThenSound(Counted(EnumRecords()), _ => FromGlobals());
    ThenSound(Counted(TypeRecords()), _ => FromEnums());
    CountedSound(Str());
    ThenSound(Counted(Str()), _ => FromTypes());
    ThenSound(CodeSection(), _ => FromLiterals());
  }

  // ---------- what the tool keeps: texts instead of stored strings ----------

  datatype TypeRecord = TypeRecord(name: seq<Byte>, externalFlag: nat, base: seq<Byte>, members: seq<(seq<Byte>, nat)>)
  datatype EnumRecord = EnumRecord(name: seq<Byte>, externalFlag: nat, values: seq<(seq<Byte>, nat)>)
  datatype GlobalRecord = GlobalRecord(name: seq<Byte>, fields: seq<nat>, initializerCells: seq<nat>)
  datatype CallableRecord = CallableRecord(name: seq<Byte>, fields: seq<nat>, parameterTypes: seq<nat>)

  datatype Module = Module(codeCells: seq<nat>, types: seq<TypeRecord>, enums: seq<EnumRecord>,
                           globalsReserved: nat, globals: seq<GlobalRecord>, callables: seq<CallableRecord>)

  function PairFrom(p: (seq<Byte>, nat)): (seq<Byte>, nat) { (Text(p.0), p.1) }

  function TypeFrom(t: StoredType): TypeRecord {
    TypeRecord(Text(t.0), t.1.0, Text(t.1.1.0), Each(PairFrom, t.1.1.1))
  }

  function EnumFrom(e: StoredEnum): EnumRecord { EnumRecord(Text(e.0), e.1.0, Each(PairFrom, e.1.1)) }

  function GlobalFrom(g: StoredGlobal): GlobalRecord { GlobalRecord(Text(g.0), g.1.0, g.1.1) }

  function CallableFrom(c: StoredCallable): CallableRecord { CallableRecord(Text(c.0), c.1.0, c.1.1.1) }

  function Each<A, B>(f: A -> B, s: seq<A>): (r: seq<B>)
    ensures |r| == |s|
  {
    seq(|s|, i requires 0 <= i < |s| => f(s[i]))
  }

  function ModuleFrom(m: StoredModule): Module {
    Module(m.0.1.1, Each(TypeFrom, m.1.1.0), Each(EnumFrom, m.1.1.1.0), m.1.1.1.1.0.0,
           Each(GlobalFrom, m.1.1.1.1.0.1), Each(CallableFrom, m.1.1.1.1.1))
  }

  // ---------- the reader ----------

  // Offsets stay word-aligned: padding computed from the absolute offset is padding computed
  // from the length of the string.
  class Reader {
    const data: seq<Byte>
    var offset: nat

    ghost predicate Valid() reads this { offset <= |data| && offset % 4 == 0 }

    ghost function Rest(): seq<Byte>
      requires Valid()
      reads this
    {
      data[offset..]
    }

    constructor (data: seq<Byte>)
      ensures Valid() && this.data == data && Rest() == data && offset == 0
    {
      this.data, offset := data, 0;
    }

    method U32() returns (r: Option<nat>)
      requires Valid()
      modifies this`offset
      ensures Valid() && offset == old(offset) + if r.Some? then 4 else 0
      ensures match Word().take(old(Rest()))
        case Some(t) => r == Some(t.value) && Rest() == t.rest
        case None => r == None
    {
      if offset + 4 > |data| { return None; }
      ghost var s := Rest();
      assert forall k | 0 <= k < 4 :: data[offset + k] == s[k];
      assert data[offset + 4..] == s[4..];
      var value := U32At(data, offset);
      offset := offset + 4;
      r := Some(value);
    }

    method ReadCells(count: nat) returns (r: Option<seq<nat>>)
      requires Valid()
      modifies this`offset
      ensures Valid() && offset >= old(offset)
      ensures match Cells(count).take(old(Rest()))
        case Some(t) => r == Some(t.value) && Rest() == t.rest
        case None => r == None
    {
      ghost var s := Rest();
      CellsTaken(data, offset, count);
      if offset + 4 * count > |data| { return None; }
      var at := offset;
      offset := offset + 4 * count;
      r := Some(seq(count, i requires 0 <= i < count => U32At(data, at + 4 * i)));
    }

    // A length, the string with its terminator, zero bytes up to the next word.
    method LpBytes() returns (r: Option<seq<Byte>>)
      requires Valid()
      modifies this`offset
      ensures r.Some? ==> Valid() && offset >= old(offset)
      ensures match TakeString(old(Rest()))
        case Some(t) => r == Some(Text(t.value)) && Valid() && Rest() == t.rest
        case None => r == None
    {
      hide TakeString, AllZero, Terminated, Padding, AlignUp4, U32At;
      StringMissing(data, offset);
      var length := U32();
      if length.None? { return None; }
      var n, start := length.value, offset;
      StringAt(data, start - 4, n);
      if n > |data| - offset { return None; }
      var raw := data[offset..offset + n];
      NotTerminated(raw);
      if n > 0 && raw[n - 1] != 0 { return None; }
      offset := offset + n;
      var padded := AlignUp4(offset);
      if padded > |data| { return None; }
      if !AllZero(data[offset..padded]) { return None; }
      offset := padded;
      r := Some(if n > 0 then raw[..n - 1] else []);
    }

    method LpAscii() returns (r: Option<seq<Byte>>)
      requires Valid()
      modifies this`offset
      ensures r.Some? ==> Valid() && offset >= old(offset)
      ensures match Name().take(old(Rest()))
        case Some(t) => r == Some(Text(t.value)) && Valid() && Rest() == t.rest
        case None => r == None
    {
      hide Text, TakeString, Printable;
      r := LpBytes();
      if r.Some? && !Printable(r.value) { r := None; }
    }
  }

  lemma WordTakes(s: seq<Byte>)
    ensures Word().take(s) == TakeU32(s)
  {
  }

  lemma StringMissing(data: seq<Byte>, at: nat)
    requires at <= |data|
    ensures Word().take(data[at..]).None? ==> TakeString(data[at..]).None?
  {
  }

  // A string by its place in the file: the padding ends at the next aligned offset.
  lemma StringAt(data: seq<Byte>, at: nat, n: nat)
    requires at % 4 == 0 && at + 4 <= |data| && Word().take(data[at..]) == Some(Took(n, data[at + 4..]))
    ensures
      var (start, end) := (at + 4, AlignUp4(at + 4 + n));
      && end >= start + n && end % 4 == 0
      && TakeString(data[at..]) ==
         if n > |data| - start || !Terminated(data[start..start + n]) then None
         else if end > |data| || !AllZero(data[start + n..end]) then None
         else Some(Took(data[start..start + n], data[end..]))
  {
    hide AllZero, Terminated, AlignUp4, Padding, TakeU32, Word;
    WordTakes(data[at..]);
    var start, p := at + 4, Padding(n);
    PaddingIsAlignment(start, n);
    var rest := data[start..];
    if n <= |rest| {
      assert rest[..n] == data[start..start + n];
      if n + p <= |rest| {
        assert rest[n..n + p] == data[start + n..start + n + p];
        assert rest[n + p..] == data[start + n + p..];
      }
    }
  }

  lemma NotTerminated(raw: seq<Byte>)
    ensures Terminated(raw) <==> raw == [] || raw[|raw| - 1] == 0
  {
  }

  lemma {:induction false} CellsTaken(data: seq<Byte>, at: nat, n: nat)
    requires at <= |data|
    ensures TakeFields(data[at..], Fours(n)) ==
            if at + 4 * n > |data| then None
            else Some(Took(seq(n, i requires 0 <= i < n => U32At(data, at + 4 * i)), data[at + 4 * n..]))
  {
    hide U32At;
    if n == 0 {
    } else {
      var k := n - 1;
      CellsTaken(data, at, k);
      assert Fours(n)[..k] == Fours(k);
      if at + 4 * k <= |data| {
        WordInside(data, at + 4 * k);
      }
      if at + 4 * n <= |data| {
        assert seq(n, i requires 0 <= i < n => U32At(data, at + 4 * i))
            == seq(k, i requires 0 <= i < k => U32At(data, at + 4 * i)) + [U32At(data, at + 4 * k)];
      }
    }
  }

  lemma WordInside(data: seq<Byte>, at: nat)
    requires at <= |data|
    ensures TakeField(data[at..], 4) == if at + 4 > |data| then None else Some(Took(U32At(data, at), data[at + 4..]))
  {
    if at + 4 <= |data| {
      assert forall k | 0 <= k < 4 :: data[at + k] == data[at..][k];
      assert data[at..][4..] == data[at + 4..];
    }
  }

  // ---------- the record loops ----------

  method ReadPair(reader: Reader) returns (r: Option<(seq<Byte>, nat)>)
    requires reader.Valid()
    modifies reader`offset
    ensures match Pair().take(old(reader.Rest()))
      case Some(t) => r == Some(PairFrom(t.value)) && reader.Valid() && reader.Rest() == t.rest
      case None => r == None
  {
    hide Name, Text, Word;
    var name := reader.LpAscii();
    if name.None? { return None; }
    var value := reader.U32();
    if value.None? { return None; }
    r := Some((name.value, value.value));
  }

  method ReadPairs(reader: Reader) returns (r: Option<seq<(seq<Byte>, nat)>>)
    requires reader.Valid()
    modifies reader`offset
    ensures match Pairs().take(old(reader.Rest()))
      case Some(t) => r == Some(Each(PairFrom, t.value)) && reader.Valid() && reader.Rest() == t.rest
      case None => r == None
  {
    hide Pair, U32At, PairFrom;
    var count := reader.U32();
    if count.None? { return None; }
    ghost var s, stored: seq<(seq<Byte>, nat)> := reader.Rest(), [];
    var pairs: seq<(seq<Byte>, nat)> := [];
    for i := 0 to count.value
      invariant reader.Valid() && TakeMany(Pair(), s, i) == Some(Took(stored, reader.Rest()))
      invariant pairs == Each(PairFrom, stored)
    {
      if TakeMany(Pair(), s, i + 1).None? { TakeManyStops(Pair(), s, i + 1, count.value); }
      ghost var front := reader.Rest();
      var pair := ReadPair(reader);
      if pair.None? { return None; }
      pairs := pairs + [pair.value];
      stored := stored + [Pair().take(front).value.value];
    }
    r := Some(pairs);
  }

  method ReadType(reader: Reader) returns (r: Option<TypeRecord>)
    requires reader.Valid()
    modifies reader`offset
    ensures match TypeRecords().take(old(reader.Rest()))
      case Some(t) => r == Some(TypeFrom(t.value)) && reader.Valid() && reader.Rest() == t.rest
      case None => r == None
  {
    hide Name, Text, Word, Pairs, PairFrom;
    var name := reader.LpAscii();
    if name.None? { return None; }
    var externalFlag := reader.U32();
    if externalFlag.None? || externalFlag.value > 1 { return None; }
    var base := reader.LpAscii();
    if base.None? { return None; }
    var members := ReadPairs(reader);
    if members.None? { return None; }
    r := Some(TypeRecord(name.value, externalFlag.value, base.value, members.value));
  }

  method ReadTypes(reader: Reader) returns (r: Option<seq<TypeRecord>>)
    requires reader.Valid()
    modifies reader`offset
    ensures match Counted(TypeRecords()).take(old(reader.Rest()))
      case Some(t) => r == Some(Each(TypeFrom, t.value)) && reader.Valid() && reader.Rest() == t.rest
      case None => r == None
  {
    hide TypeRecords, U32At, TypeFrom;
    var count := reader.U32();
    if count.None? { return None; }
    ghost var s, stored: seq<StoredType> := reader.Rest(), [];
    var types: seq<TypeRecord> := [];
    for i := 0 to count.value
      invariant reader.Valid() && TakeMany(TypeRecords(), s, i) == Some(Took(stored, reader.Rest()))
      invariant types == Each(TypeFrom, stored)
    {
      if TakeMany(TypeRecords(), s, i + 1).None? { TakeManyStops(TypeRecords(), s, i + 1, count.value); }
      ghost var front := reader.Rest();
      var record := ReadType(reader);
      if record.None? { return None; }
      types := types + [record.value];
      stored := stored + [TypeRecords().take(front).value.value];
    }
    r := Some(types);
  }

  method ReadEnum(reader: Reader) returns (r: Option<EnumRecord>)
    requires reader.Valid()
    modifies reader`offset
    ensures match EnumRecords().take(old(reader.Rest()))
      case Some(t) => r == Some(EnumFrom(t.value)) && reader.Valid() && reader.Rest() == t.rest
      case None => r == None
  {
    hide Name, Text, Word, Pairs;
    var name := reader.LpAscii();
    if name.None? { return None; }
    var externalFlag := reader.U32();
    if externalFlag.None? || externalFlag.value > 1 { return None; }
    var values: seq<(seq<Byte>, nat)> := [];
    assert Each(PairFrom, []) == values;
    if externalFlag.value == 0 {
      var pairs := ReadPairs(reader);
      if pairs.None? { return None; }
      values := pairs.value;
    }
    r := Some(EnumRecord(name.value, externalFlag.value, values));
  }

  method ReadEnums(reader: Reader) returns (r: Option<seq<EnumRecord>>)
    requires reader.Valid()
    modifies reader`offset
    ensures match Counted(EnumRecords()).take(old(reader.Rest()))
      case Some(t) => r == Some(Each(EnumFrom, t.value)) && reader.Valid() && reader.Rest() == t.rest
      case None => r == None
  {
    hide EnumRecords, U32At, EnumFrom;
    var count := reader.U32();
    if count.None? { return None; }
    ghost var s, stored: seq<StoredEnum> := reader.Rest(), [];
    var enums: seq<EnumRecord> := [];
    for i := 0 to count.value
      invariant reader.Valid() && TakeMany(EnumRecords(), s, i) == Some(Took(stored, reader.Rest()))
      invariant enums == Each(EnumFrom, stored)
    {
      if TakeMany(EnumRecords(), s, i + 1).None? { TakeManyStops(EnumRecords(), s, i + 1, count.value); }
      ghost var front := reader.Rest();
      var record := ReadEnum(reader);
      if record.None? { return None; }
      enums := enums + [record.value];
      stored := stored + [EnumRecords().take(front).value.value];
    }
    r := Some(enums);
  }

  // The fixed words of a global or a callable; the second is its flag.
  method ReadFlagged(reader: Reader, n: nat) returns (r: Option<seq<nat>>)
    requires reader.Valid() && n > 1
    modifies reader`offset
    ensures match Flagged(n).take(old(reader.Rest()))
      case Some(t) => r == Some(t.value) && |t.value| == n && reader.Valid() && reader.Rest() == t.rest
      case None => r == None
  {
    hide TakeFields;
    ghost var s := reader.Rest();
    r := reader.ReadCells(n);
    if r.None? { return None; }
    CellsSound(n);
    assert Cells(n).take(s) == Some(Took(r.value, reader.Rest()));
    if r.value[1] > 1 { r := None; }
  }

  method ReadGlobal(reader: Reader) returns (r: Option<GlobalRecord>)
    requires reader.Valid()
    modifies reader`offset
    ensures match GlobalRecords().take(old(reader.Rest()))
      case Some(t) => r == Some(GlobalFrom(t.value)) && reader.Valid() && reader.Rest() == t.rest
      case None => r == None
  {
    hide Name, Text, Flagged, Cells;
    var name := reader.LpAscii();
    if name.None? { return None; }
    var fields := ReadFlagged(reader, 4);
    if fields.None? { return None; }
    var initializerCells := reader.ReadCells(fields.value[3]);
    if initializerCells.None? { return None; }
    r := Some(GlobalRecord(name.value, fields.value, initializerCells.value));
  }

  method ReadGlobals(reader: Reader) returns (r: Option<seq<GlobalRecord>>)
    requires reader.Valid()
    modifies reader`offset
    ensures match Counted(GlobalRecords()).take(old(reader.Rest()))
      case Some(t) => r == Some(Each(GlobalFrom, t.value)) && reader.Valid() && reader.Rest() == t.rest
      case None => r == None
  {
    hide GlobalRecords, U32At, GlobalFrom;
    var count := reader.U32();
    if count.None? { return None; }
    ghost var s, stored: seq<StoredGlobal> := reader.Rest(), [];
    var globals: seq<GlobalRecord> := [];
    for i := 0 to count.value
      invariant reader.Valid() && TakeMany(GlobalRecords(), s, i) == Some(Took(stored, reader.Rest()))
      invariant globals == Each(GlobalFrom, stored)
    {
      if TakeMany(GlobalRecords(), s, i + 1).None? { TakeManyStops(GlobalRecords(), s, i + 1, count.value); }
      ghost var front := reader.Rest();
      var record := ReadGlobal(reader);
      if record.None? { return None; }
      globals := globals + [record.value];
      stored := stored + [GlobalRecords().take(front).value.value];
    }
    r := Some(globals);
  }

  method ReadCallable(reader: Reader) returns (r: Option<CallableRecord>)
    requires reader.Valid()
    modifies reader`offset
    ensures match CallableRecords().take(old(reader.Rest()))
      case Some(t) => r == Some(CallableFrom(t.value)) && reader.Valid() && reader.Rest() == t.rest
      case None => r == None
  {
    hide Name, Text, Flagged, Cells, Word;
    var name := reader.LpAscii();
    if name.None? { return None; }
    var fields := ReadFlagged(reader, 10);
    if fields.None? { return None; }
    var parameterCount := reader.U32();
    if parameterCount.None? { return None; }
    var parameterTypes := reader.ReadCells(parameterCount.value);
    if parameterTypes.None? { return None; }
    r := Some(CallableRecord(name.value, fields.value, parameterTypes.value));
  }

  method ReadCallables(reader: Reader) returns (r: Option<seq<CallableRecord>>)
    requires reader.Valid()
    modifies reader`offset
    ensures match Counted(CallableRecords()).take(old(reader.Rest()))
      case Some(t) => r == Some(Each(CallableFrom, t.value)) && reader.Valid() && reader.Rest() == t.rest
      case None => r == None
  {
    hide CallableRecords, U32At, CallableFrom;
    var count := reader.U32();
    if count.None? { return None; }
    ghost var s, stored: seq<StoredCallable> := reader.Rest(), [];
    var callables: seq<CallableRecord> := [];
    for i := 0 to count.value
      invariant reader.Valid() && TakeMany(CallableRecords(), s, i) == Some(Took(stored, reader.Rest()))
      invariant callables == Each(CallableFrom, stored)
    {
      if TakeMany(CallableRecords(), s, i + 1).None? { TakeManyStops(CallableRecords(), s, i + 1, count.value); }
      ghost var front := reader.Rest();
      var record := ReadCallable(reader);
      if record.None? { return None; }
      callables := callables + [record.value];
      stored := stored + [CallableRecords().take(front).value.value];
    }
    r := Some(callables);
  }

  // Literals are checked and dropped.
  method SkipLiterals(reader: Reader) returns (ok: bool)
    requires reader.Valid()
    modifies reader`offset
    ensures match Counted(Str()).take(old(reader.Rest()))
      case Some(t) => ok && reader.Valid() && reader.Rest() == t.rest
      case None => !ok
  {
    hide TakeString, TakeU32, TakeMany, Text;
    var count := reader.U32();
    if count.None? { return false; }
    ghost var s, stored: seq<seq<Byte>> := reader.Rest(), [];
    TakeManyStep(Str(), s, 0);
    for i := 0 to count.value
      invariant reader.Valid() && TakeMany(Str(), s, i) == Some(Took(stored, reader.Rest()))
    {
      TakeManyStep(Str(), s, i);
      if TakeMany(Str(), s, i + 1).None? { TakeManyStops(Str(), s, i + 1, count.value); }
      ghost var front := reader.Rest();
      var literal := reader.LpBytes();
      if literal.None? { return false; }
      stored := stored + [Str().take(front).value.value];
    }
    ok := true;
  }

  // ---------- the whole module ----------

  // Where each section starts, and where the last one ends.
  datatype Sections = Sections(code: nat, literals: nat, types: nat, enums: nat, globals: nat, callables: nat, end: nat)

  // The bytes from a to b are what codec c writes for v, and both ends are word-aligned.
  ghost predicate Holds<T(!new)>(data: seq<Byte>, a: nat, b: nat, c: Codec<T>, v: T) {
    a <= b <= |data| && a % 4 == 0 && b % 4 == 0 && data[a..b] == c.emit(v)
  }

  // The sections follow each other from the start of the file to its end.
  ghost predicate CutInto(data: seq<Byte>, x: Sections, m: StoredModule) {
    && x.code == HEADER_END && x.end == |data|
    && Holds(data, 0, x.literals, CodeSection(), m.0)
    && Holds(data, x.literals, x.types, Counted(Str()), m.1.0)
    && Holds(data, x.types, x.enums, Counted(TypeRecords()), m.1.1.0)
    && Holds(data, x.enums, x.globals, Counted(EnumRecords()), m.1.1.1.0)
    && Holds(data, x.globals, x.callables, GlobalSection(), m.1.1.1.1.0)
    && Holds(data, x.callables, x.end, Counted(CallableRecords()), m.1.1.1.1.1)
  }

  lemma SectionHolds<T(!new)>(data: seq<Byte>, a: nat, b: nat, c: Codec<T>, v: T)
    requires Lawful(c) && a <= |data| && b <= |data| && a % 4 == 0 && b % 4 == 0
    requires c.take(data[a..]) == Some(Took(v, data[b..]))
    ensures Holds(data, a, b, c, v)
  {
    assert data[a..] == c.emit(v) + data[b..];
    assert data[a..b] == data[a..][..b - a];
  }

  lemma CodeParts(s: seq<Byte>)
    ensures CodeSection().take(s) ==
      match Word().take(s)
      case None => None
      case Some(o) =>
        if o.value != HEADER_END then None
        else
          match Word().take(o.rest)
          case None => None
          case Some(n) =>
            match Cells(n.value).take(n.rest)
            case None => None
            case Some(c) => Some(Took((o.value, (n.value, c.value)), c.rest))
  {
    hide Cells, Word;
  }

  method ReadCode(reader: Reader) returns (r: Option<seq<nat>>)
    requires reader.Valid() && reader.offset == 0
    modifies reader`offset
    ensures match CodeSection().take(old(reader.Rest()))
      case Some(t) => r == Some(t.value.1.1) && reader.Valid() && reader.Rest() == t.rest
      case None => r == None
  {
    hide Cells, Word, CodeSection;
    CodeParts(reader.Rest());
    var codeOffset := reader.U32();
    if codeOffset.None? { return None; }
    var count := reader.U32();
    if count.None? || codeOffset.value != reader.offset { return None; }
    r := reader.ReadCells(count.value);
  }

  method ReadGlobalSection(reader: Reader) returns (reserved: nat, r: Option<seq<GlobalRecord>>)
    requires reader.Valid()
    modifies reader`offset
    ensures match GlobalSection().take(old(reader.Rest()))
      case Some(t) => && reserved == t.value.0 && r == Some(Each(GlobalFrom, t.value.1))
                      && reader.Valid() && reader.Rest() == t.rest
      case None => r == None
  {
    hide TakeU32, Counted, GlobalRecords, GlobalFrom;
    var word := reader.U32();
    if word.None? { return 0, None; }
    reserved := word.value;
    r := ReadGlobals(reader);
  }

  // The sections of a module are taken one behind the other.
  lemma ModuleParts(s: seq<Byte>)
    ensures Modules().take(s) ==
      match CodeSection().take(s)
      case None => None
      case Some(code) =>
        match Counted(Str()).take(code.rest)
        case None => None
        case Some(literals) =>
          match Counted(TypeRecords()).take(literals.rest)
          case None => None
          case Some(types) =>
            match Counted(EnumRecords()).take(types.rest)
            case None => None
            case Some(enums) =>
              match GlobalSection().take(enums.rest)
              case None => None
              case Some(globals) =>
                match Counted(CallableRecords()).take(globals.rest)
                case None => None
                case Some(callables) =>
                  Some(Took((code.value, (literals.value, (types.value, (enums.value,
                            (globals.value, callables.value))))), callables.rest))
  {
    hide CodeSection, TypeRecords, EnumRecords, CallableRecords, Str, Counted, GlobalSection;
  }

  // The parse up to the check for trailing bytes. The module returned is what the codec reads,
  // and the section table it reports cuts the file without gap or overlap.
  method ParseModule(data: seq<Byte>) returns (r: Option<Module>, x: Sections)
    ensures match Modules().take(data)
      case Some(t) =>
        if t.rest == [] then r == Some(ModuleFrom(t.value)) && CutInto(data, x, t.value) else r == None
      case None => r == None
  {
    hide CodeSection, TypeRecords, EnumRecords, CallableRecords, Str, Counted, GlobalSection,
         TypeFrom, EnumFrom, GlobalFrom, CallableFrom, Lawful, CutInto, Each, Modules;
    ModuleParts(data);
    x := Sections(0, 0, 0, 0, 0, 0, 0);
    var reader := new Reader(data);
    var code := ReadCode(reader);
    if code.None? { return None, x; }
    var literalsStart := reader.offset;
    var literalsOk := SkipLiterals(reader);
    if !literalsOk { return None, x; }
    var typesStart := reader.offset;
    var types := ReadTypes(reader);
    if types.None? { return None, x; }
    var enumsStart := reader.offset;
    var enums := ReadEnums(reader);
    if enums.None? { return None, x; }
    var globalsStart := reader.offset;
    var reserved, globals := ReadGlobalSection(reader);
    if globals.None? { return None, x; }
    var callablesStart := reader.offset;
    var callables := ReadCallables(reader);
    if callables.None? { return None, x; }
    if reader.offset != |data| { return None, x; }
    x := Sections(HEADER_END, literalsStart, typesStart, enumsStart, globalsStart, callablesStart, |data|);
    ghost var m := Modules().take(data).value.value;
    CutsHold(data, x, m);
    r := Some(Module(code.value, types.value, enums.value, reserved, globals.value, callables.value));
  }

  // Sections read one behind the other cut the file.
  lemma CutsHold(data: seq<Byte>, x: Sections, m: StoredModule)
    requires x.code == HEADER_END && x.end == |data|
    requires x.literals <= |data| && x.types <= |data| && x.enums <= |data|
    requires x.globals <= |data| && x.callables <= |data|
    requires x.literals % 4 == 0 && x.types % 4 == 0 && x.enums % 4 == 0 && x.globals % 4 == 0
    requires x.callables % 4 == 0 && x.end % 4 == 0
    requires CodeSection().take(data) == Some(Took(m.0, data[x.literals..]))
    requires Counted(Str()).take(data[x.literals..]) == Some(Took(m.1.0, data[x.types..]))
    requires Counted(TypeRecords()).take(data[x.types..]) == Some(Took(m.1.1.0, data[x.enums..]))
    requires Counted(EnumRecords()).take(data[x.enums..]) == Some(Took(m.1.1.1.0, data[x.globals..]))
    requires GlobalSection().take(data[x.globals..]) == Some(Took(m.1.1.1.1.0, data[x.callables..]))
    requires Counted(CallableRecords()).take(data[x.callables..]) == Some(Took(m.1.1.1.1.1, data[x.end..]))
    ensures CutInto(data, x, m)
  {
    hide CodeSection, TypeRecords, EnumRecords, CallableRecords, Str, Counted, GlobalSection, Lawful, Holds;
    SectionsLawful();
    assert data[0..] == data;
    SectionHolds(data, 0, x.literals, CodeSection(), m.0);
    SectionHolds(data, x.literals, x.types, Counted(Str()), m.1.0);
    SectionHolds(data, x.types, x.enums, Counted(TypeRecords()), m.1.1.0);
    SectionHolds(data, x.enums, x.globals, Counted(EnumRecords()), m.1.1.1.0);
    SectionHolds(data, x.globals, x.callables, GlobalSection(), m.1.1.1.1.0);
    SectionHolds(data, x.callables, x.end, Counted(CallableRecords()), m.1.1.1.1.1);
  }

  lemma SectionsLawful()
    ensures Lawful(CodeSection()) && Lawful(Counted(Str())) && Lawful(Counted(TypeRecords()))
    ensures Lawful(Counted(EnumRecords())) && Lawful(GlobalSection()) && Lawful(Counted(CallableRecords()))
  {
    hide Then, Counted, CodeSection, TypeRecords, EnumRecords, GlobalRecords, CallableRecords, Str, Word;
    CodeSound();
    StringSound();
    WordSound();
    TypesSound();
    EnumsSound();
    GlobalsSound();
    CallablesSound();
    CountedSound(Str());
    ThenSound(Word(), _ => Counted(GlobalRecords()));
  }

  // ---------- round trips ----------

  // A file is accepted exactly when it is the serialisation of a valid stored module.
  lemma AcceptedExactly(data: seq<Byte>, m: StoredModule)
    ensures Modules().take(data) == Some(Took(m, [])) <==> Modules().valid(m) && data == Modules().emit(m)
    ensures Modules().valid(m) ==> |Modules().emit(m)| % 4 == 0
  {
    hide Modules;
    ModulesSound();
    assert Modules().emit(m) + [] == Modules().emit(m);
  }

  function Stored(text: seq<Byte>): seq<Byte> { text + [0] }

  function StoredPair(p: (seq<Byte>, nat)): (seq<Byte>, nat) { (Stored(p.0), p.1) }

  function StoredTypeOf(t: TypeRecord): StoredType {
    (Stored(t.name), (t.externalFlag, (Stored(t.base), Each(StoredPair, t.members))))
  }

  function StoredEnumOf(e: EnumRecord): StoredEnum { (Stored(e.name), (e.externalFlag, Each(StoredPair, e.values))) }

  function StoredGlobalOf(g: GlobalRecord): StoredGlobal { (Stored(g.name), (g.fields, g.initializerCells)) }

  function StoredCallableOf(c: CallableRecord): StoredCallable {
    (Stored(c.name), (c.fields, (|c.parameterTypes|, c.parameterTypes)))
  }

  // The module with every text terminated, and any literals.
  function StoredOf(m: Module, literals: seq<seq<Byte>>): StoredModule {
    ((HEADER_END, (|m.codeCells|, m.codeCells)), (literals, (Each(StoredTypeOf, m.types), (Each(StoredEnumOf, m.enums),
     ((m.globalsReserved, Each(StoredGlobalOf, m.globals)), Each(StoredCallableOf, m.callables))))))
  }

  lemma PairsSurvive(ps: seq<(seq<Byte>, nat)>)
    ensures Each(PairFrom, Each(StoredPair, ps)) == ps
  {
    forall i | 0 <= i < |ps| ensures PairFrom(StoredPair(ps[i])) == ps[i] {
      assert Stored(ps[i].0)[..|ps[i].0|] == ps[i].0;
    }
  }

  lemma TextSurvives(text: seq<Byte>)
    ensures Text(Stored(text)) == text
  {
  }

  lemma ModuleSurvives(m: Module, literals: seq<seq<Byte>>)
    ensures ModuleFrom(StoredOf(m, literals)) == m
  {
    hide Text, Stored, PairFrom, StoredPair;
    forall i | 0 <= i < |m.types| ensures TypeFrom(StoredTypeOf(m.types[i])) == m.types[i] {
      TextSurvives(m.types[i].name);
      TextSurvives(m.types[i].base);
      PairsSurvive(m.types[i].members);
    }
    forall i | 0 <= i < |m.enums| ensures EnumFrom(StoredEnumOf(m.enums[i])) == m.enums[i] {
      TextSurvives(m.enums[i].name);
      PairsSurvive(m.enums[i].values);
    }
    forall i | 0 <= i < |m.globals| ensures GlobalFrom(StoredGlobalOf(m.globals[i])) == m.globals[i] {
      TextSurvives(m.globals[i].name);
    }
    forall i | 0 <= i < |m.callables| ensures CallableFrom(StoredCallableOf(m.callables[i])) == m.callables[i] {
      TextSurvives(m.callables[i].name);
    }
    var back := ModuleFrom(StoredOf(m, literals));
    assert back.types == m.types && back.enums == m.enums;
    assert back.globals == m.globals && back.callables == m.callables;
  }

  // Serialising a module and parsing the bytes gives the module back, whatever its literals.
  lemma SerialiseThenParse(m: Module, literals: seq<seq<Byte>>)
    requires Modules().valid(StoredOf(m, literals))
    ensures var t := Modules().take(Modules().emit(StoredOf(m, literals)));
      t.Some? && t.value.rest == [] && ModuleFrom(t.value.value) == m
  {
    hide Modules, StoredOf, ModuleFrom;
    AcceptedExactly(Modules().emit(StoredOf(m, literals)), StoredOf(m, literals));
    ModuleSurvives(m, literals);
  }

  // Bytes are not recovered from texts: exactly the empty text has two stored forms, no bytes
  // and a lone NUL.
  lemma OnlyEmptyIsAmbiguous(a: seq<Byte>, b: seq<Byte>)
    requires Terminated(a) && Terminated(b)
    ensures Text(a) == Text(b) && a != b <==> (a == [] && b == [0]) || (a == [0] && b == [])
  {
    if Text(a) == Text(b) && a != [] && b != [] {
      assert a == Text(a) + [0] && b == Text(b) + [0];
    }
  }

  // ---------- which modules the texts determine ----------

  // A record no name of which is stored as no bytes.
  ghost predicate PairNamed(p: (seq<Byte>, nat)) { p.0 != [] }

  ghost predicate TypeNamed(t: StoredType) {
    t.0 != [] && t.1.1.0 != [] && forall i | 0 <= i < |t.1.1.1| :: PairNamed(t.1.1.1[i])
  }

  ghost predicate EnumNamed(e: StoredEnum) { e.0 != [] && forall i | 0 <= i < |e.1.1| :: PairNamed(e.1.1[i]) }

  ghost predicate GlobalNamed(g: StoredGlobal) { g.0 != [] }

  ghost predicate CallableNamed(c: StoredCallable) { c.0 != [] }

  ghost predicate NoneMissing(m: StoredModule) {
    && (forall i | 0 <= i < |m.1.1.0| :: TypeNamed(m.1.1.0[i]))
    && (forall i | 0 <= i < |m.1.1.1.0| :: EnumNamed(m.1.1.1.0[i]))
    && (forall i | 0 <= i < |m.1.1.1.1.0.1| :: GlobalNamed(m.1.1.1.1.0.1[i]))
    && (forall i | 0 <= i < |m.1.1.1.1.1| :: CallableNamed(m.1.1.1.1.1[i]))
  }

  lemma StoredAgain(raw: seq<Byte>)
    requires Terminated(raw)
    ensures Stored(Text(raw)) == raw <==> raw != []
  {
    if raw != [] {
      assert Stored(Text(raw)) == raw[..|raw| - 1] + [raw[|raw| - 1]] == raw;
    }
  }

  // A list comes back exactly when each of its records does.
  lemma EachAgain<A, B>(from: A -> B, to: B -> A, s: seq<A>)
    ensures Each(to, Each(from, s)) == s <==> forall i | 0 <= i < |s| :: to(from(s[i])) == s[i]
  {
    var back := Each(to, Each(from, s));
    assert forall i | 0 <= i < |s| :: back[i] == to(from(s[i]));
    if forall i | 0 <= i < |s| :: to(from(s[i])) == s[i] {
      assert back == s;
    }
  }

  lemma PairsAgain(ps: seq<(seq<Byte>, nat)>)
    requires AllValid(Pair(), ps)
    ensures Each(StoredPair, Each(PairFrom, ps)) == ps <==> forall i | 0 <= i < |ps| :: PairNamed(ps[i])
  {
    hide Each;
    EachAgain(PairFrom, StoredPair, ps);
    forall i | 0 <= i < |ps| ensures StoredPair(PairFrom(ps[i])) == ps[i] <==> PairNamed(ps[i]) {
      assert Pair().valid(ps[i]);
      StoredAgain(ps[i].0);
    }
  }

  lemma TypeAgain(t: StoredType)
    requires TypeRecords().valid(t)
    ensures StoredTypeOf(TypeFrom(t)) == t <==> TypeNamed(t)
  {
    hide Each, PairNamed, PairFrom, StoredPair, Text, Stored;
    StoredAgain(t.0);
    StoredAgain(t.1.1.0);
    PairsAgain(t.1.1.1);
  }

  lemma EnumAgain(e: StoredEnum)
    requires EnumRecords().valid(e)
    ensures StoredEnumOf(EnumFrom(e)) == e <==> EnumNamed(e)
  {
    hide Each, PairNamed, PairFrom, StoredPair, Text, Stored;
    StoredAgain(e.0);
    if e.1.0 == 0 {
      PairsAgain(e.1.1);
    } else {
      assert Each(StoredPair, Each(PairFrom, e.1.1)) == [];
    }
  }

  lemma GlobalAgain(g: StoredGlobal)
    requires GlobalRecords().valid(g)
    ensures StoredGlobalOf(GlobalFrom(g)) == g <==> GlobalNamed(g)
  {
    hide Text, Stored;
    StoredAgain(g.0);
  }

  lemma CallableAgain(c: StoredCallable)
    requires CallableRecords().valid(c)
    ensures StoredCallableOf(CallableFrom(c)) == c <==> CallableNamed(c)
  {
    hide Text, Stored;
    StoredAgain(c.0);
  }

  // What validity says of the parts of a module.
  lemma ValidParts(m: StoredModule)
    requires Modules().valid(m)
    ensures m.0.0 == HEADER_END && m.0.1.0 == |m.0.1.1|
    ensures AllValid(TypeRecords(), m.1.1.0) && AllValid(EnumRecords(), m.1.1.1.0)
    ensures AllValid(GlobalRecords(), m.1.1.1.1.0.1) && AllValid(CallableRecords(), m.1.1.1.1.1)
  {
    hide TypeRecords, EnumRecords, GlobalRecords, CallableRecords, Str;
  }

  // A valid stored module is recovered from its texts and literals exactly when no name of it is
  // stored as no bytes.
  lemma ModuleAgain(m: StoredModule)
    requires Modules().valid(m)
    ensures StoredOf(ModuleFrom(m), m.1.0) == m <==> NoneMissing(m)
  {
    hide Modules, Each, TypeRecords, EnumRecords, GlobalRecords, CallableRecords, TypeNamed, EnumNamed, GlobalNamed,
         CallableNamed, StoredTypeOf, StoredEnumOf, StoredGlobalOf, StoredCallableOf, TypeFrom, EnumFrom, GlobalFrom,
         CallableFrom;
    ValidParts(m);
    var types, enums, globals, callables := m.1.1.0, m.1.1.1.0, m.1.1.1.1.0.1, m.1.1.1.1.1;
    EachAgain(TypeFrom, StoredTypeOf, types);
    EachAgain(EnumFrom, StoredEnumOf, enums);
    EachAgain(GlobalFrom, StoredGlobalOf, globals);
    EachAgain(CallableFrom, StoredCallableOf, callables);
    forall i | 0 <= i < |types| ensures StoredTypeOf(TypeFrom(types[i])) == types[i] <==> TypeNamed(types[i]) {
      TypeAgain(types[i]);
    }
    forall i | 0 <= i < |enums| ensures StoredEnumOf(EnumFrom(enums[i])) == enums[i] <==> EnumNamed(enums[i]) {
      EnumAgain(enums[i]);
    }
    forall i | 0 <= i < |globals|
      ensures StoredGlobalOf(GlobalFrom(globals[i])) == globals[i] <==> GlobalNamed(globals[i])
    {
      GlobalAgain(globals[i]);
    }
    forall i | 0 <= i < |callables|
      ensures StoredCallableOf(CallableFrom(callables[i])) == callables[i] <==> CallableNamed(callables[i])
    {
      CallableAgain(callables[i]);
    }
  }
}
