// Readers paired with the printers they invert, and ways to combine them.
module Codecs {
  import opened Bytes
  import opened Fields
  import opened Options

  datatype Codec<!T> = Codec(take: seq<Byte> -> Option<Took<T>>, emit: T -> seq<Byte>, valid: T -> bool)

  // Taking succeeds exactly on the printed form of a valid value, and leaves what stands behind it.
  ghost predicate Lawful<T(!new)>(c: Codec<T>) {
    forall s, v, rest :: c.take(s) == Some(Took(v, rest)) <==> c.valid(v) && s == c.emit(v) + rest
  }

  // Prints are whole 32-bit words.
  ghost predicate Aligned<T(!new)>(c: Codec<T>) {
    forall v | c.valid(v) :: |c.emit(v)| % 4 == 0
  }

  ghost predicate Sound<T(!new)>(c: Codec<T>) { Lawful(c) && Aligned(c) }

  // ---------- combinators ----------

  ghost function Word(): Codec<nat> {
    Codec(s => TakeU32(s), (v: nat) => if v < U32_LIMIT then U32Bytes(v) else [], (v: nat) => v < U32_LIMIT)
  }

  lemma WordSound()
    ensures Sound(Word())
  {
    var c := Word();
    forall s, v: nat, rest
      ensures c.take(s) == Some(Took(v, rest)) <==> c.valid(v) && s == c.emit(v) + rest
    {
      FieldTaken(s, 4, v, rest);
    }
  }

  function Fours(n: nat): seq<nat> { seq(n, _ => 4) }

  // A row of fields of fixed widths.
  ghost function Row(widths: seq<nat>): Codec<seq<nat>> {
    Codec(s => TakeFields(s, widths), v => if RowFits(v, widths) then Pack(v, widths) else [],
          v => RowFits(v, widths))
  }

  lemma RowLawful(widths: seq<nat>)
    ensures Lawful(Row(widths))
  {
    hide TakeFields, RowFits, Pack;
    var c := Row(widths);
    forall s, v, rest
      ensures c.take(s) == Some(Took(v, rest)) <==> c.valid(v) && s == c.emit(v) + rest
    {
      RowTaken(s, widths, v, rest);
    }
  }

  // n words in a row.
  ghost function Cells(n: nat): Codec<seq<nat>> { Row(Fours(n)) }

  lemma {:induction false} AllFours(widths: seq<nat>)
    requires forall i | 0 <= i < |widths| :: widths[i] == 4
    ensures RowLength(widths) == 4 * |widths|
  {
    if widths != [] {
      AllFours(widths[..|widths| - 1]);
    }
  }

  lemma CellsSound(n: nat)
    ensures Sound(Cells(n))
  {
    hide TakeFields, RowFits, Pack, RowLength;
    var c := Cells(n);
    RowLawful(Fours(n));
    forall v | c.valid(v) ensures |c.emit(v)| % 4 == 0 {
      AllFours(Fours(n));
    }
  }

  ghost function Nothing<T(!new)>(): Codec<seq<T>> {
    Codec(s => Some(Took([], s)), v => [], v => v == [])
  }

  lemma NothingSound<T(!new)>()
    ensures Sound(Nothing<T>())
  {
    forall s: seq<Byte> ensures s == [] + s {
    }
  }

  ghost function Where<T(!new)>(c: Codec<T>, p: T -> bool): Codec<T> {
    Codec(s => match c.take(s) case Some(t) => (if p(t.value) then Some(t) else None) case None => None,
          c.emit, v => c.valid(v) && p(v))
  }

  lemma WhereSound<T(!new)>(c: Codec<T>, p: T -> bool)
    requires Sound(c)
    ensures Sound(Where(c, p))
  {
    WhereLawful(c, p);
  }

  lemma WhereLawful<T(!new)>(c: Codec<T>, p: T -> bool)
    requires Lawful(c)
    ensures Lawful(Where(c, p))
  {
    var w := Where(c, p);
    forall s, v, rest
      ensures w.take(s) == Some(Took(v, rest)) <==> w.valid(v) && s == w.emit(v) + rest
    {
      assert c.take(s) == Some(Took(v, rest)) <==> c.valid(v) && s == c.emit(v) + rest;
    }
  }

  // A value, and a second one whose layout depends on the first.
  ghost function Then<A(!new), B(!new)>(a: Codec<A>, b: A -> Codec<B>): Codec<(A, B)> {
    Codec(s => TakeThen(a, b, s), (v: (A, B)) => a.emit(v.0) + b(v.0).emit(v.1),
          (v: (A, B)) => a.valid(v.0) && b(v.0).valid(v.1))
  }

  ghost function TakeThen<A(!new), B(!new)>(a: Codec<A>, b: A -> Codec<B>, s: seq<Byte>): Option<Took<(A, B)>> {
    match a.take(s)
    case None => None
    case Some(t) =>
      match b(t.value).take(t.rest)
      case None => None
      case Some(u) => Some(Took((t.value, u.value), u.rest))
  }

  lemma ThenTaken<A(!new), B(!new)>(a: Codec<A>, b: A -> Codec<B>, s: seq<Byte>, v: (A, B), rest: seq<Byte>)
    requires Lawful(a) && forall x | a.valid(x) :: Lawful(b(x))
    ensures TakeThen(a, b, s) == Some(Took(v, rest)) <==>
            a.valid(v.0) && b(v.0).valid(v.1) && s == (a.emit(v.0) + b(v.0).emit(v.1)) + rest
  {
    if TakeThen(a, b, s) == Some(Took(v, rest)) {
      var t := a.take(s).value;
      assert a.take(s) == Some(Took(v.0, t.rest));
      assert a.valid(v.0) && Lawful(b(v.0));
      assert b(v.0).take(t.rest) == Some(Took(v.1, rest));
      assert s == a.emit(v.0) + (b(v.0).emit(v.1) + rest);
    }
    if a.valid(v.0) && b(v.0).valid(v.1) && s == (a.emit(v.0) + b(v.0).emit(v.1)) + rest {
      assert Lawful(b(v.0));
      var middle := b(v.0).emit(v.1) + rest;
      assert s == a.emit(v.0) + middle;
      assert a.take(s) == Some(Took(v.0, middle));
      assert b(v.0).take(middle) == Some(Took(v.1, rest));
    }
  }

  lemma ThenIs<A(!new), B(!new)>(a: Codec<A>, b: A -> Codec<B>, v: (A, B))
    ensures Then(a, b).valid(v) <==> a.valid(v.0) && b(v.0).valid(v.1)
    ensures Then(a, b).emit(v) == a.emit(v.0) + b(v.0).emit(v.1)
  {
  }

  lemma ThenLawful<A(!new), B(!new)>(a: Codec<A>, b: A -> Codec<B>)
    requires Lawful(a) && forall x | a.valid(x) :: Lawful(b(x))
    ensures Lawful(Then(a, b))
  {
    var c := Then(a, b);
    forall s, v, rest
      ensures c.take(s) == Some(Took(v, rest)) <==> c.valid(v) && s == c.emit(v) + rest
    {
      ThenTaken(a, b, s, v, rest);
    }
  }

  lemma ThenSound<A(!new), B(!new)>(a: Codec<A>, b: A -> Codec<B>)
    requires Sound(a) && forall x | a.valid(x) :: Sound(b(x))
    ensures Sound(Then(a, b))
  {
    ThenLawful(a, b);
    var c := Then(a, b);
    forall v | c.valid(v) ensures |c.emit(v)| % 4 == 0 {
      assert |a.emit(v.0)| % 4 == 0 && Sound(b(v.0));
      assert |b(v.0).emit(v.1)| % 4 == 0;
    }
  }

  // n bytes as they stand.
  ghost function Raw(n: nat): Codec<seq<Byte>> {
    Codec(s => TakeBytes(s, n), b => b, b => |b| == n)
  }

  lemma RawLawful(n: nat)
    ensures Lawful(Raw(n))
  {
    forall s, b: seq<Byte>, rest
      ensures TakeBytes(s, n) == Some(Took(b, rest)) <==> |b| == n && s == b + rest
    {
      if |b| == n {
        BytesTaken(s, b, rest);
      }
    }
  }

  // n values in a row.
  ghost function TakeMany<T(!new)>(c: Codec<T>, s: seq<Byte>, n: nat): Option<Took<seq<T>>> {
    if n == 0 then Some(Took([], s))
    else
      match TakeMany(c, s, n - 1)
      case None => None
      case Some(t) =>
        match c.take(t.rest)
        case None => None
        case Some(f) => Some(Took(t.value + [f.value], f.rest))
  }

  ghost function PrintMany<T(!new)>(c: Codec<T>, vs: seq<T>): seq<Byte> {
    if vs == [] then [] else PrintMany(c, vs[..|vs| - 1]) + c.emit(vs[|vs| - 1])
  }

  ghost predicate AllValid<T(!new)>(c: Codec<T>, vs: seq<T>) { forall i | 0 <= i < |vs| :: c.valid(vs[i]) }

  lemma TakeManyStep<T(!new)>(c: Codec<T>, s: seq<Byte>, n: nat)
    ensures TakeMany(c, s, 0) == Some(Took([], s))
    ensures TakeMany(c, s, n + 1) ==
      match TakeMany(c, s, n)
      case None => None
      case Some(t) =>
        match c.take(t.rest)
        case None => None
        case Some(v) => Some(Took(t.value + [v.value], v.rest))
  {
  }

  lemma {:induction false} TakeManyStops<T(!new)>(c: Codec<T>, s: seq<Byte>, k: nat, n: nat)
    requires k <= n && TakeMany(c, s, k).None?
    ensures TakeMany(c, s, n).None?
    decreases n
  {
    if k < n {
      TakeManyStops(c, s, k, n - 1);
    }
  }

  // A longer run of values starts with every shorter one.
  lemma {:induction false} TakeManyPrefix<T(!new)>(c: Codec<T>, s: seq<Byte>, k: nat, n: nat)
    requires k <= n && TakeMany(c, s, n).Some?
    ensures TakeMany(c, s, k).Some? && |TakeMany(c, s, n).value.value| == n
    ensures TakeMany(c, s, k).value.value == TakeMany(c, s, n).value.value[..k]
    decreases n
  {
    if n > 0 {
      TakeManyPrefix(c, s, if k < n then k else n - 1, n - 1);
    }
  }

  lemma {:induction false} ManyLength<T(!new)>(c: Codec<T>, s: seq<Byte>, n: nat)
    ensures TakeMany(c, s, n).Some? ==> |TakeMany(c, s, n).value.value| == n
  {
    if n > 0 {
      ManyLength(c, s, n - 1);
    }
  }

  lemma {:induction false} ManyTaken<T(!new)>(c: Codec<T>, s: seq<Byte>, vs: seq<T>, rest: seq<Byte>)
    requires Lawful(c)
    ensures TakeMany(c, s, |vs|) == Some(Took(vs, rest)) <==> AllValid(c, vs) && s == PrintMany(c, vs) + rest
    decreases |vs|
  {
    if vs == [] {
      assert s == rest <==> s == [] + rest;
    } else {
      var n: nat := |vs| - 1;
      if TakeMany(c, s, |vs|) == Some(Took(vs, rest)) {
        var t := TakeMany(c, s, n).value;
        assert vs[..n] == t.value;
        ManyTaken(c, s, vs[..n], t.rest);
        assert c.take(t.rest) == Some(Took(vs[n], rest));
        assert s == PrintMany(c, vs[..n]) + (c.emit(vs[n]) + rest);
      }
      if AllValid(c, vs) && s == PrintMany(c, vs) + rest {
        var middle := c.emit(vs[n]) + rest;
        assert s == PrintMany(c, vs[..n]) + middle;
        ManyTaken(c, s, vs[..n], middle);
        assert c.take(middle) == Some(Took(vs[n], rest));
        assert vs[..n] + [vs[n]] == vs;
      }
    }
  }

  lemma {:induction false} RowsLength(widths: seq<nat>, rows: seq<seq<nat>>)
    requires AllValid(Row(widths), rows)
    ensures |PrintMany(Row(widths), rows)| == |rows| * RowLength(widths)
  {
    hide Pack, RowFits, RowLength;
    if rows != [] {
      var n := |rows| - 1;
      RowsLength(widths, rows[..n]);
      assert Row(widths).valid(rows[n]);
      assert |rows| * RowLength(widths) == n * RowLength(widths) + RowLength(widths);
    }
  }

  lemma {:induction false} ManyAligned<T(!new)>(c: Codec<T>, vs: seq<T>)
    requires Aligned(c) && AllValid(c, vs)
    ensures |PrintMany(c, vs)| % 4 == 0
  {
    if vs != [] {
      ManyAligned(c, vs[..|vs| - 1]);
    }
  }

  // A 32-bit count, and that many values.
  ghost function Counted<T(!new)>(c: Codec<T>): Codec<seq<T>> {
    Codec(s => TakeCounted(c, s), vs => if |vs| < U32_LIMIT then U32Bytes(|vs|) + PrintMany(c, vs) else [],
          vs => |vs| < U32_LIMIT && AllValid(c, vs))
  }

  ghost function TakeCounted<T(!new)>(c: Codec<T>, s: seq<Byte>): Option<Took<seq<T>>> {
    match TakeU32(s)
    case None => None
    case Some(t) => TakeMany(c, t.rest, t.value)
  }

  lemma CountedTaken<T(!new)>(c: Codec<T>, s: seq<Byte>, vs: seq<T>, rest: seq<Byte>)
    requires Lawful(c)
    ensures TakeCounted(c, s) == Some(Took(vs, rest)) <==>
            |vs| < U32_LIMIT && AllValid(c, vs) && s == (U32Bytes(|vs|) + PrintMany(c, vs)) + rest
  {
    hide U32At, U32Bytes, TakeMany, PrintMany, AllValid, Lawful;
    if TakeCounted(c, s) == Some(Took(vs, rest)) {
      var t := TakeU32(s).value;
      ManyLength(c, t.rest, t.value);
      FieldTaken(s, 4, t.value, t.rest);
      ManyTaken(c, t.rest, vs, rest);
      assert s == U32Bytes(|vs|) + (PrintMany(c, vs) + rest);
    }
    if |vs| < U32_LIMIT && AllValid(c, vs) && s == (U32Bytes(|vs|) + PrintMany(c, vs)) + rest {
      var middle := PrintMany(c, vs) + rest;
      assert s == U32Bytes(|vs|) + middle;
      FieldTaken(s, 4, |vs|, middle);
      ManyTaken(c, middle, vs, rest);
    }
  }

  lemma CountedLawful<T(!new)>(c: Codec<T>)
    requires Lawful(c)
    ensures Lawful(Counted(c))
  {
    hide TakeCounted, U32Bytes, PrintMany, AllValid;
    var d := Counted(c);
    forall s, vs, rest
      ensures d.take(s) == Some(Took(vs, rest)) <==> d.valid(vs) && s == d.emit(vs) + rest
    {
      CountedTaken(c, s, vs, rest);
    }
  }

  lemma CountedSound<T(!new)>(c: Codec<T>)
    requires Sound(c)
    ensures Sound(Counted(c))
  {
    hide Lawful, TakeCounted, U32Bytes, PrintMany, AllValid;
    CountedLawful(c);
    var d := Counted(c);
    forall vs | d.valid(vs) ensures |d.emit(vs)| % 4 == 0 {
      ManyAligned(c, vs);
    }
  }
}
