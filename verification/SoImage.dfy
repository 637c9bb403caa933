// Script modules written out field by field. The parser accepts exactly what can be written, and
// returns what was written with the terminators of its names dropped; no codec is named.
module SoImage {
  import opened Bytes
  import opened Codecs
  import opened Fields
  import opened Options
  import opened SoModule

  // ---------- the bytes ----------

  function CellsAs(words: seq<nat>): seq<Byte> {
    if words == [] then [] else CellsAs(words[..|words| - 1]) + WordAs(words[|words| - 1])
  }

  // The length of a stored name, its bytes, and zeros up to the next word.
  function NameAs(raw: seq<Byte>): seq<Byte> {
    WordAs(|raw|) + raw + Zeros(if |raw| % 4 == 0 then 0 else 4 - |raw| % 4)
  }

  // A table: the number of its records, and the records.
  function TableAs<T>(write: T -> seq<Byte>, vs: seq<T>): seq<Byte> { WordAs(|vs|) + Joined(write, vs) }

  function PairAs(p: (seq<Byte>, nat)): seq<Byte> { NameAs(p.0) + WordAs(p.1) }

  function TypeAs(t: TypeRecord): seq<Byte> {
    NameAs(t.name) + WordAs(t.externalFlag) + NameAs(t.base) + TableAs(PairAs, t.members)
  }

  // An external enumeration ends with its flag.
  function EnumAs(e: EnumRecord): seq<Byte> {
    NameAs(e.name) + WordAs(e.externalFlag) + if e.externalFlag == 0 then TableAs(PairAs, e.values) else []
  }

  function GlobalAs(g: GlobalRecord): seq<Byte> { NameAs(g.name) + CellsAs(g.fields) + CellsAs(g.initializerCells) }

  function CallableAs(c: CallableRecord): seq<Byte> {
    NameAs(c.name) + CellsAs(c.fields) + WordAs(|c.parameterTypes|) + CellsAs(c.parameterTypes)
  }

  // The six sections: code, literals, types, enumerations, globals, callables. The names of w are
  // stored byte strings.
  function Written(w: Module, literals: seq<seq<Byte>>): seq<Byte> {
    WordAs(8) + WordAs(|w.codeCells|) + CellsAs(w.codeCells) + TableAs(NameAs, literals) + TableAs(TypeAs, w.types)
      + TableAs(EnumAs, w.enums) + WordAs(w.globalsReserved) + TableAs(GlobalAs, w.globals)
      + TableAs(CallableAs, w.callables)
  }

  // ---------- what can be written ----------

  predicate AreWords(words: seq<nat>) { forall i | 0 <= i < |words| :: IsWord(words[i]) }

  // A stored string is no bytes at all, or ends with a NUL.
  predicate IsString(raw: seq<Byte>) { IsWord(|raw|) && (raw == [] || raw[|raw| - 1] == 0) }

  predicate IsName(raw: seq<Byte>) {
    IsString(raw) && forall i | 0 <= i < |raw| - 1 :: 0x20 <= raw[i] <= 0x7E
  }

  predicate ArePairs(ps: seq<(seq<Byte>, nat)>) {
    IsWord(|ps|) && forall i | 0 <= i < |ps| :: IsName(ps[i].0) && IsWord(ps[i].1)
  }

  predicate IsType(t: TypeRecord) { IsName(t.name) && t.externalFlag <= 1 && IsName(t.base) && ArePairs(t.members) }

  predicate IsEnum(e: EnumRecord) {
    IsName(e.name) && e.externalFlag <= 1 && if e.externalFlag == 0 then ArePairs(e.values) else e.values == []
  }

  // The fourth word of a global counts its initializer.
  predicate IsGlobal(g: GlobalRecord) {
    && IsName(g.name) && |g.fields| == 4 && AreWords(g.fields) && g.fields[1] <= 1
    && |g.initializerCells| == g.fields[3] && AreWords(g.initializerCells)
  }

  predicate IsCallable(c: CallableRecord) {
    && IsName(c.name) && |c.fields| == 10 && AreWords(c.fields) && c.fields[1] <= 1
    && IsWord(|c.parameterTypes|) && AreWords(c.parameterTypes)
  }

  ghost predicate Writable(w: Module, literals: seq<seq<Byte>>) {
    && IsWord(|w.codeCells|) && AreWords(w.codeCells) && IsWord(w.globalsReserved)
    && IsWord(|literals|) && (forall i | 0 <= i < |literals| :: IsString(literals[i]))
    && IsWord(|w.types|) && (forall i | 0 <= i < |w.types| :: IsType(w.types[i]))
    && IsWord(|w.enums|) && (forall i | 0 <= i < |w.enums| :: IsEnum(w.enums[i]))
    && IsWord(|w.globals|) && (forall i | 0 <= i < |w.globals| :: IsGlobal(w.globals[i]))
    && IsWord(|w.callables|) && (forall i | 0 <= i < |w.callables| :: IsCallable(w.callables[i]))
  }

  // ---------- what is reported ----------

  function Cut(raw: seq<Byte>): seq<Byte> { if |raw| == 0 then [] else raw[..|raw| - 1] }

  function CutPairs(ps: seq<(seq<Byte>, nat)>): (r: seq<(seq<Byte>, nat)>)
    ensures |r| == |ps|
  {
    seq(|ps|, i requires 0 <= i < |ps| => (Cut(ps[i].0), ps[i].1))
  }

  // The module of the report: the records as written, without the terminators of their names.
  function Reported(w: Module): Module {
    w.(types := seq(|w.types|, i requires 0 <= i < |w.types| =>
         var t := w.types[i]; t.(name := Cut(t.name), base := Cut(t.base), members := CutPairs(t.members))),
       enums := seq(|w.enums|, i requires 0 <= i < |w.enums| =>
         var e := w.enums[i]; e.(name := Cut(e.name), values := CutPairs(e.values))),
       globals := seq(|w.globals|, i requires 0 <= i < |w.globals| => w.globals[i].(name := Cut(w.globals[i].name))),
       callables := seq(|w.callables|, i requires 0 <= i < |w.callables| =>
         w.callables[i].(name := Cut(w.callables[i].name))))
  }

  // ---------- the codec's view of a written module ----------

  function StoreType(t: TypeRecord): StoredType { (t.name, (t.externalFlag, (t.base, t.members))) }

  function StoreEnum(e: EnumRecord): StoredEnum { (e.name, (e.externalFlag, e.values)) }

  function StoreGlobal(g: GlobalRecord): StoredGlobal { (g.name, (g.fields, g.initializerCells)) }

  function StoreCallable(c: CallableRecord): StoredCallable {
    (c.name, (c.fields, (|c.parameterTypes|, c.parameterTypes)))
  }

  function Store(w: Module, literals: seq<seq<Byte>>): StoredModule {
    ((8, (|w.codeCells|, w.codeCells)), (literals, (Each(StoreType, w.types), (Each(StoreEnum, w.enums),
     ((w.globalsReserved, Each(StoreGlobal, w.globals)), Each(StoreCallable, w.callables))))))
  }

  lemma StringIs(raw: seq<Byte>)
    ensures Str().valid(raw) <==> IsString(raw)
    ensures IsString(raw) ==> Str().emit(raw) == NameAs(raw)
  {
    if IsString(raw) {
      hide U32Bytes, WordAs;
      WordIs(|raw|);
      assert Padding(|raw|) == if |raw| % 4 == 0 then 0 else 4 - |raw| % 4;
    }
  }

  lemma PrintableText(raw: seq<Byte>)
    ensures Printable(Text(raw)) <==> forall i | 0 <= i < |raw| - 1 :: 0x20 <= raw[i] <= 0x7E
  {
    var text := Text(raw);
    assert raw != [] ==> |text| == |raw| - 1 && forall i | 0 <= i < |text| :: text[i] == raw[i];
    if Printable(text) {
      forall i | 0 <= i < |raw| - 1 ensures 0x20 <= raw[i] <= 0x7E { assert raw[i] == text[i]; }
    }
  }

  lemma NameIs(raw: seq<Byte>)
    ensures Name().valid(raw) <==> IsName(raw)
    ensures IsName(raw) ==> Name().emit(raw) == NameAs(raw)
  {
    StringIs(raw);
    PrintableText(raw);
    hide Str, NameAs, IsString, Text, Printable;
  }

  lemma CellsAre(words: seq<nat>)
    ensures Cells(|words|).valid(words) <==> AreWords(words)
    ensures AreWords(words) ==> Cells(|words|).emit(words) == CellsAs(words)
  {
    FitWords(words);
    if AreWords(words) { PackWords(words); }
  }

  lemma FitWords(words: seq<nat>)
    ensures RowFits(words, Fours(|words|)) <==> AreWords(words)
  {
    assert forall i | 0 <= i < |words| :: FieldFits(words[i], Fours(|words|)[i]) <==> IsWord(words[i]);
  }

  lemma {:induction false} PackWords(words: seq<nat>)
    requires AreWords(words) && RowFits(words, Fours(|words|))
    ensures Pack(words, Fours(|words|)) == CellsAs(words)
  {
    hide U32Bytes, WordAs;
    if words != [] {
      var n := |words| - 1;
      FitWords(words[..n]);
      PackWords(words[..n]);
      assert Fours(n + 1)[..n] == Fours(n);
      assert IsWord(words[n]);
      WordIs(words[n]);
    }
  }

  // ---------- tables ----------

  // A codec writes a table as it is written here when it does so for each of its records.
  lemma {:induction false} JoinedIs<A, B(!new)>(c: Codec<B>, store: A -> B, write: A -> seq<Byte>, vs: seq<A>)
    requires forall i | 0 <= i < |vs| :: c.emit(store(vs[i])) == write(vs[i])
    ensures PrintMany(c, Each(store, vs)) == Joined(write, vs)
  {
    if vs != [] {
      var n := |vs| - 1;
      assert Each(store, vs)[..n] == Each(store, vs[..n]);
      JoinedIs(c, store, write, vs[..n]);
    }
  }
  lemma TableIs<A, B(!new)>(c: Codec<B>, store: A -> B, write: A -> seq<Byte>, vs: seq<A>)
    ensures Counted(c).valid(Each(store, vs)) <==>
            IsWord(|vs|) && forall i | 0 <= i < |vs| :: c.valid(store(vs[i]))
    ensures Counted(c).valid(Each(store, vs)) && (forall i | 0 <= i < |vs| :: c.emit(store(vs[i])) == write(vs[i])) ==>
            Counted(c).emit(Each(store, vs)) == TableAs(write, vs)
  {
    hide U32Bytes, WordAs, Joined, PrintMany;
    var stored := Each(store, vs);
    assert forall i | 0 <= i < |vs| :: stored[i] == store(vs[i]);
    if AllValid(c, stored) {
      assert forall i | 0 <= i < |vs| :: c.valid(stored[i]);
    }
    if IsWord(|vs|) && forall i | 0 <= i < |vs| :: c.emit(store(vs[i])) == write(vs[i]) {
      WordIs(|vs|);
      JoinedIs(c, store, write, vs);
    }
  }

  lemma PairIs(p: (seq<Byte>, nat))
    ensures Pair().valid(p) <==> IsName(p.0) && IsWord(p.1)
    ensures Pair().valid(p) ==> Pair().emit(p) == PairAs(p)
  {
    NameIs(p.0);
    if IsWord(p.1) { WordIs(p.1); }
    hide Name, NameAs, IsName, U32Bytes, WordAs;
  }

  lemma PairsAre(ps: seq<(seq<Byte>, nat)>)
    ensures Pairs().valid(ps) <==> ArePairs(ps)
    ensures ArePairs(ps) ==> Pairs().emit(ps) == TableAs(PairAs, ps)
  {
    hide Pair, PairAs, IsName, Counted, TableAs;
    var same := (p: (seq<Byte>, nat)) => p;
    forall i | 0 <= i < |ps|
      ensures Pair().valid(same(ps[i])) <==> IsName(ps[i].0) && IsWord(ps[i].1)
      ensures Pair().valid(same(ps[i])) ==> Pair().emit(same(ps[i])) == PairAs(ps[i])
    {
      PairIs(ps[i]);
    }
    assert Each(same, ps) == ps;
    TableIs(Pair(), same, PairAs, ps);
  }

  lemma FlagIs(flag: nat)
    ensures Flag().valid(flag) <==> flag <= 1
    ensures flag <= 1 ==> Flag().emit(flag) == WordAs(flag)
  {
    if flag <= 1 { WordIs(flag); }
  }

  lemma CountIs(n: nat)
    ensures Word().valid(n) <==> IsWord(n)
    ensures IsWord(n) ==> Word().emit(n) == WordAs(n)
  {
    if IsWord(n) { WordIs(n); }
  }

  lemma TypeIs(t: TypeRecord)
    ensures TypeRecords().valid(StoreType(t)) <==> IsType(t)
    ensures IsType(t) ==> TypeRecords().emit(StoreType(t)) == TypeAs(t)
  {
    hide Name, NameAs, IsName, Flag, WordAs, Pairs, ArePairs, TableAs, Then;
    NameIs(t.name);
    FlagIs(t.externalFlag);
    NameIs(t.base);
    PairsAre(t.members);
    var v := StoreType(t);
    ThenIs(Name(), _ => Pairs(), v.1.1);
    ThenIs(Flag(), _ => Then(Name(), _ => Pairs()), v.1);
    ThenIs(Name(), _ => Then(Flag(), _ => Then(Name(), _ => Pairs())), v);
    if IsType(t) {
      Bracket4(NameAs(t.name), WordAs(t.externalFlag), NameAs(t.base), TableAs(PairAs, t.members));
    }
  }

  lemma Bracket3(a: seq<Byte>, b: seq<Byte>, c: seq<Byte>)
    ensures a + (b + c) == a + b + c
  {
  }

  lemma Bracket4(a: seq<Byte>, b: seq<Byte>, c: seq<Byte>, d: seq<Byte>)
    ensures a + (b + (c + d)) == a + b + c + d
  {
  }

  lemma EnumIs(e: EnumRecord)
    ensures EnumRecords().valid(StoreEnum(e)) <==> IsEnum(e)
    ensures IsEnum(e) ==> EnumRecords().emit(StoreEnum(e)) == EnumAs(e)
  {
    hide Name, NameAs, IsName, Flag, WordAs, Pairs, ArePairs, TableAs, Then;
    NameIs(e.name);
    FlagIs(e.externalFlag);
    PairsAre(e.values);
    var v := StoreEnum(e);
    ThenIs(Flag(), flag => EnumValues(flag), v.1);
    ThenIs(Name(), _ => Then(Flag(), flag => EnumValues(flag)), v);
    if IsEnum(e) {
      Bracket3(NameAs(e.name), WordAs(e.externalFlag), if e.externalFlag == 0 then TableAs(PairAs, e.values) else []);
    }
  }

  lemma FlaggedIs(n: nat, fields: seq<nat>)
    requires n > 1
    ensures Flagged(n).valid(fields) <==> |fields| == n && AreWords(fields) && fields[1] <= 1
    ensures Flagged(n).valid(fields) ==> Flagged(n).emit(fields) == CellsAs(fields)
  {
    CellsAre(fields);
    CellCount(n, fields);
    hide Cells, CellsAs, AreWords;
  }

  lemma CellCount(n: nat, words: seq<nat>)
    ensures Cells(n).valid(words) ==> |words| == n
  {
  }

  lemma InitializerIs(g: GlobalRecord)
    requires |g.fields| == 4
    ensures Initializer(g.fields).valid(g.initializerCells) <==>
            |g.initializerCells| == g.fields[3] && AreWords(g.initializerCells)
    ensures Initializer(g.fields).valid(g.initializerCells) ==>
            Initializer(g.fields).emit(g.initializerCells) == CellsAs(g.initializerCells)
  {
    CellsAre(g.initializerCells);
    CellCount(g.fields[3], g.initializerCells);
    hide Cells, CellsAs, AreWords;
  }

  lemma GlobalIs(g: GlobalRecord)
    ensures GlobalRecords().valid(StoreGlobal(g)) <==> IsGlobal(g)
    ensures IsGlobal(g) ==> GlobalRecords().emit(StoreGlobal(g)) == GlobalAs(g)
  {
    hide Name, NameAs, IsName, CellsAs, AreWords, Flagged, Initializer, Then;
    NameIs(g.name);
    FlaggedIs(4, g.fields);
    if |g.fields| == 4 { InitializerIs(g); }
    var v := StoreGlobal(g);
    ThenIs(Flagged(4), f => Initializer(f), v.1);
    ThenIs(Name(), _ => Then(Flagged(4), f => Initializer(f)), v);
    Bracket3(NameAs(g.name), CellsAs(g.fields), CellsAs(g.initializerCells));
  }

  lemma CountedCellsAre(words: seq<nat>)
    ensures CountedCells().valid((|words|, words)) <==> IsWord(|words|) && AreWords(words)
    ensures CountedCells().valid((|words|, words)) ==>
            CountedCells().emit((|words|, words)) == WordAs(|words|) + CellsAs(words)
  {
    CountIs(|words|);
    CellsAre(words);
    hide Word, Cells, CellsAs, AreWords, WordAs;
  }

  lemma CallableIs(c: CallableRecord)
    ensures CallableRecords().valid(StoreCallable(c)) <==> IsCallable(c)
    ensures IsCallable(c) ==> CallableRecords().emit(StoreCallable(c)) == CallableAs(c)
  {
    hide Name, NameAs, IsName, CellsAs, AreWords, Flagged, CountedCells, WordAs, Then;
    NameIs(c.name);
    FlaggedIs(10, c.fields);
    CountedCellsAre(c.parameterTypes);
    var v := StoreCallable(c);
    ThenIs(Flagged(10), _ => CountedCells(), v.1);
    ThenIs(Name(), _ => Then(Flagged(10), _ => CountedCells()), v);
    Bracket4(NameAs(c.name), CellsAs(c.fields), WordAs(|c.parameterTypes|), CellsAs(c.parameterTypes));
  }

  // ---------- the sections ----------

  lemma CodeIs(cells: seq<nat>)
    ensures CodeSection().valid((8, (|cells|, cells))) <==> IsWord(|cells|) && AreWords(cells)
    ensures CodeSection().valid((8, (|cells|, cells))) ==>
            CodeSection().emit((8, (|cells|, cells))) == WordAs(8) + WordAs(|cells|) + CellsAs(cells)
  {
    hide CountedCells, CellsAs, AreWords, WordAs, Then;
    CountIs(8);
    CountedCellsAre(cells);
    ThenIs(Where(Word(), (v: nat) => v == HEADER_END), _ => CountedCells(), (8, (|cells|, cells)));
  }

  lemma LiteralsAre(literals: seq<seq<Byte>>)
    ensures Counted(Str()).valid(literals) <==>
            IsWord(|literals|) && forall i | 0 <= i < |literals| :: IsString(literals[i])
    ensures Counted(Str()).valid(literals) ==> Counted(Str()).emit(literals) == TableAs(NameAs, literals)
  {
    hide Str, NameAs, IsString, Counted, TableAs;
    var same := (raw: seq<Byte>) => raw;
    forall i | 0 <= i < |literals|
      ensures Str().valid(same(literals[i])) <==> IsString(literals[i])
      ensures IsString(literals[i]) ==> Str().emit(same(literals[i])) == NameAs(literals[i])
    {
      StringIs(literals[i]);
    }
    assert Each(same, literals) == literals;
    TableIs(Str(), same, NameAs, literals);
  }

  lemma TypesAre(types: seq<TypeRecord>)
    ensures Counted(TypeRecords()).valid(Each(StoreType, types)) <==>
            IsWord(|types|) && forall i | 0 <= i < |types| :: IsType(types[i])
    ensures Counted(TypeRecords()).valid(Each(StoreType, types)) ==>
            Counted(TypeRecords()).emit(Each(StoreType, types)) == TableAs(TypeAs, types)
  {
    hide TypeRecords, StoreType, TypeAs, IsType, Counted, TableAs;
    forall i | 0 <= i < |types|
      ensures TypeRecords().valid(StoreType(types[i])) <==> IsType(types[i])
      ensures IsType(types[i]) ==> TypeRecords().emit(StoreType(types[i])) == TypeAs(types[i])
    {
      TypeIs(types[i]);
    }
    TableIs(TypeRecords(), StoreType, TypeAs, types);
  }

  lemma EnumsAre(enums: seq<EnumRecord>)
    ensures Counted(EnumRecords()).valid(Each(StoreEnum, enums)) <==>
            IsWord(|enums|) && forall i | 0 <= i < |enums| :: IsEnum(enums[i])
    ensures Counted(EnumRecords()).valid(Each(StoreEnum, enums)) ==>
            Counted(EnumRecords()).emit(Each(StoreEnum, enums)) == TableAs(EnumAs, enums)
  {
    hide EnumRecords, StoreEnum, EnumAs, IsEnum, Counted, TableAs;
    forall i | 0 <= i < |enums|
      ensures EnumRecords().valid(StoreEnum(enums[i])) <==> IsEnum(enums[i])
      ensures IsEnum(enums[i]) ==> EnumRecords().emit(StoreEnum(enums[i])) == EnumAs(enums[i])
    {
      EnumIs(enums[i]);
    }
    TableIs(EnumRecords(), StoreEnum, EnumAs, enums);
  }

  lemma GlobalsAre(reserved: nat, globals: seq<GlobalRecord>)
    ensures GlobalSection().valid((reserved, Each(StoreGlobal, globals))) <==>
            IsWord(reserved) && IsWord(|globals|) && forall i | 0 <= i < |globals| :: IsGlobal(globals[i])
    ensures GlobalSection().valid((reserved, Each(StoreGlobal, globals))) ==>
            GlobalSection().emit((reserved, Each(StoreGlobal, globals))) ==
            WordAs(reserved) + TableAs(GlobalAs, globals)
  {
    hide GlobalRecords, StoreGlobal, GlobalAs, IsGlobal, Counted, TableAs, Then, WordAs;
    forall i | 0 <= i < |globals|
      ensures GlobalRecords().valid(StoreGlobal(globals[i])) <==> IsGlobal(globals[i])
      ensures IsGlobal(globals[i]) ==> GlobalRecords().emit(StoreGlobal(globals[i])) == GlobalAs(globals[i])
    {
      GlobalIs(globals[i]);
    }
    CountIs(reserved);
    TableIs(GlobalRecords(), StoreGlobal, GlobalAs, globals);
    ThenIs(Word(), _ => Counted(GlobalRecords()), (reserved, Each(StoreGlobal, globals)));
  }

  lemma CallablesAre(callables: seq<CallableRecord>)
    ensures Counted(CallableRecords()).valid(Each(StoreCallable, callables)) <==>
            IsWord(|callables|) && forall i | 0 <= i < |callables| :: IsCallable(callables[i])
    ensures Counted(CallableRecords()).valid(Each(StoreCallable, callables)) ==>
            Counted(CallableRecords()).emit(Each(StoreCallable, callables)) == TableAs(CallableAs, callables)
  {
    hide CallableRecords, StoreCallable, CallableAs, IsCallable, Counted, TableAs;
    forall i | 0 <= i < |callables|
      ensures CallableRecords().valid(StoreCallable(callables[i])) <==> IsCallable(callables[i])
      ensures IsCallable(callables[i]) ==>
              CallableRecords().emit(StoreCallable(callables[i])) == CallableAs(callables[i])
    {
      CallableIs(callables[i]);
    }
    TableIs(CallableRecords(), StoreCallable, CallableAs, callables);
  }

  // The codec writes a module as it is written here, and calls it valid exactly when it can be.
  lemma StoreIsWritten(w: Module, literals: seq<seq<Byte>>)
    ensures Modules().valid(Store(w, literals)) <==> Writable(w, literals)
    ensures Writable(w, literals) ==> Modules().emit(Store(w, literals)) == Written(w, literals)
  {
    hide CodeSection, Counted, Str, TypeRecords, EnumRecords, GlobalSection, CallableRecords, Each, Then, TableAs,
         WordAs, CellsAs, IsString, IsType, IsEnum, IsGlobal, IsCallable, AreWords, IsWord;
    CodeIs(w.codeCells);
    LiteralsAre(literals);
    TypesAre(w.types);
    EnumsAre(w.enums);
    GlobalsAre(w.globalsReserved, w.globals);
    CallablesAre(w.callables);
    var m := Store(w, literals);
    ThenIs(GlobalSection(), _ => Counted(CallableRecords()), m.1.1.1.1);
    ThenIs(Counted(EnumRecords()), _ => FromGlobals(), m.1.1.1);
    ThenIs(Counted(TypeRecords()), _ => FromEnums(), m.1.1);
    ThenIs(Counted(Str()), _ => FromTypes(), m.1);
    ThenIs(CodeSection(), _ => FromLiterals(), m);
    if Writable(w, literals) {
      BracketSections(WordAs(8) + WordAs(|w.codeCells|) + CellsAs(w.codeCells), TableAs(NameAs, literals),
                      TableAs(TypeAs, w.types), TableAs(EnumAs, w.enums), WordAs(w.globalsReserved),
                      TableAs(GlobalAs, w.globals), TableAs(CallableAs, w.callables));
    }
  }

  lemma BracketSections(a: seq<Byte>, b: seq<Byte>, c: seq<Byte>, d: seq<Byte>, e: seq<Byte>, g: seq<Byte>,
      h: seq<Byte>)
    ensures a + (b + (c + (d + ((e + g) + h)))) == a + b + c + d + e + g + h
  {
  }

  // ---------- the report ----------

  lemma PairsCut(ps: seq<(seq<Byte>, nat)>)
    ensures Each(PairFrom, ps) == CutPairs(ps)
  {
    hide Text, Cut;
    EachAt(PairFrom, ps);
    forall i | 0 <= i < |ps| ensures Each(PairFrom, ps)[i] == CutPairs(ps)[i] {
      TextIsCut(ps[i].0);
      assert PairFrom(ps[i]) == (Text(ps[i].0), ps[i].1);
    }
  }

  lemma ReportIs(w: Module, literals: seq<seq<Byte>>)
    ensures ModuleFrom(Store(w, literals)) == Reported(w)
  {
    hide Each, Cut, CutPairs, Text, PairFrom;
    var (a, b) := (ModuleFrom(Store(w, literals)), Reported(w));
    assert forall raw :: Text(raw) == Cut(raw) by { forall raw ensures Text(raw) == Cut(raw) { TextIsCut(raw); } }
    assert a.types == b.types by {
      EachAt(StoreType, w.types);
      EachAt(TypeFrom, Each(StoreType, w.types));
      forall i | 0 <= i < |w.types| ensures a.types[i] == b.types[i] { PairsCut(w.types[i].members); }
    }
    assert a.enums == b.enums by {
      EachAt(StoreEnum, w.enums);
      EachAt(EnumFrom, Each(StoreEnum, w.enums));
      forall i | 0 <= i < |w.enums| ensures a.enums[i] == b.enums[i] { PairsCut(w.enums[i].values); }
    }
    assert a.globals == b.globals by {
      EachAt(StoreGlobal, w.globals);
      EachAt(GlobalFrom, Each(StoreGlobal, w.globals));
    }
    assert a.callables == b.callables by {
      EachAt(StoreCallable, w.callables);
      EachAt(CallableFrom, Each(StoreCallable, w.callables));
    }
  }

  lemma TextIsCut(raw: seq<Byte>)
    ensures Text(raw) == Cut(raw)
  {
  }

  lemma EachAt<A, B>(f: A -> B, s: seq<A>)
    ensures forall i | 0 <= i < |s| :: Each(f, s)[i] == f(s[i])
  {
  }

  // ---------- what the parser accepts ----------

  // The stored module with its names as they stand.
  function Unstored(m: StoredModule): Module {
    Module(m.0.1.1, Each(UnstoredType, m.1.1.0), Each(UnstoredEnum, m.1.1.1.0), m.1.1.1.1.0.0,
           Each(UnstoredGlobal, m.1.1.1.1.0.1), Each(UnstoredCallable, m.1.1.1.1.1))
  }

  function UnstoredType(t: StoredType): TypeRecord { TypeRecord(t.0, t.1.0, t.1.1.0, t.1.1.1) }

  function UnstoredEnum(e: StoredEnum): EnumRecord { EnumRecord(e.0, e.1.0, e.1.1) }

  function UnstoredGlobal(g: StoredGlobal): GlobalRecord { GlobalRecord(g.0, g.1.0, g.1.1) }

  function UnstoredCallable(c: StoredCallable): CallableRecord { CallableRecord(c.0, c.1.0, c.1.1.1) }

  lemma CallableCounts(c: StoredCallable)
    requires CallableRecords().valid(c)
    ensures c.1.1.0 == |c.1.1.1|
  {
    hide Name, Flagged;
    CellCount(c.1.1.0, c.1.1.1);
    hide Cells;
  }

  lemma StoreAgain(m: StoredModule)
    requires Modules().valid(m)
    ensures Store(Unstored(m), m.1.0) == m
  {
    ValidParts(m);
    hide Modules, CallableRecords, TypeRecords, EnumRecords, GlobalRecords, Each;
    var types, enums, globals, callables := m.1.1.0, m.1.1.1.0, m.1.1.1.1.0.1, m.1.1.1.1.1;
    EachAgain(UnstoredType, StoreType, types);
    EachAgain(UnstoredEnum, StoreEnum, enums);
    EachAgain(UnstoredGlobal, StoreGlobal, globals);
    EachAgain(UnstoredCallable, StoreCallable, callables);
    forall i | 0 <= i < |callables| ensures StoreCallable(UnstoredCallable(callables[i])) == callables[i] {
      assert CallableRecords().valid(callables[i]);
      CallableCounts(callables[i]);
    }
  }

  // A written module is accepted, and reported as written.
  lemma WrittenIsAccepted(w: Module, literals: seq<seq<Byte>>)
    requires Writable(w, literals)
    ensures var t := Modules().take(Written(w, literals));
      t.Some? && t.value.rest == [] && ModuleFrom(t.value.value) == Reported(w)
  {
    hide Modules, Store, Written, Writable, ModuleFrom, Reported;
    StoreIsWritten(w, literals);
    SoModule.AcceptedExactly(Written(w, literals), Store(w, literals));
    ReportIs(w, literals);
  }

  // Nothing else is accepted.
  lemma AcceptedIsWritten(data: seq<Byte>) returns (w: Module, literals: seq<seq<Byte>>)
    requires var t := Modules().take(data); t.Some? && t.value.rest == []
    ensures Writable(w, literals) && data == Written(w, literals)
    ensures ModuleFrom(Modules().take(data).value.value) == Reported(w)
  {
    hide Modules, Store, Written, Writable, ModuleFrom, Reported;
    var m := Modules().take(data).value.value;
    SoModule.AcceptedExactly(data, m);
    StoreAgain(m);
    w, literals := Unstored(m), m.1.0;
    StoreIsWritten(w, literals);
    ReportIs(w, literals);
  }
}
