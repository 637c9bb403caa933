// Fixed-width little-endian fields and rows of fields: what a sequential reader takes off the
// front of a byte string, and the byte strings it takes them from.
module Fields {
  import opened Bytes
  import opened Options

  // What was taken, and the bytes that are left.
  datatype Took<+T> = Took(value: T, rest: seq<Byte>)

  function TakeBytes(s: seq<Byte>, n: nat): Option<Took<seq<Byte>>> {
    if |s| < n then None else Some(Took(s[..n], s[n..]))
  }

  function TakeU32(s: seq<Byte>): Option<Took<nat>> {
    if |s| < 4 then None else Some(Took(U32At(s, 0), s[4..]))
  }

  function TakeU8(s: seq<Byte>): Option<Took<nat>> {
    if |s| < 1 then None else Some(Took(s[0], s[1..]))
  }

  // A cursor that only moves forward over an immutable byte string.
  class Reader {
    const raw: seq<Byte>
    var offset: nat

    ghost predicate Valid() reads this { offset <= |raw| }

    ghost function Rest(): seq<Byte>
      requires Valid()
      reads this
    {
      raw[offset..]
    }

    constructor (raw: seq<Byte>)
      ensures Valid() && this.raw == raw && Rest() == raw && offset == 0
    {
      this.raw, offset := raw, 0;
    }

    method Take(size: nat) returns (r: Option<seq<Byte>>)
      requires Valid()
      modifies this`offset
      ensures Valid() && offset == old(offset) + if r.Some? then size else 0
      ensures match TakeBytes(old(Rest()), size)
        case Some(t) => r == Some(t.value) && Rest() == t.rest
        case None => r == None
    {
      if offset + size > |raw| { return None; }
      var begin := offset;
      offset := offset + size;
      assert raw[begin..offset] == raw[begin..][..size] && raw[offset..] == raw[begin..][size..];
      r := Some(raw[begin..offset]);
    }

    method U8() returns (r: Option<nat>)
      requires Valid()
      modifies this`offset
      ensures Valid() && offset == old(offset) + if r.Some? then 1 else 0
      ensures match TakeU8(old(Rest()))
        case Some(t) => r == Some(t.value) && Rest() == t.rest
        case None => r == None
    {
      var b := Take(1);
      if b.None? { return None; }
      r := Some(b.value[0]);
    }

    method U32() returns (r: Option<nat>)
      requires Valid()
      modifies this`offset
      ensures Valid() && offset == old(offset) + if r.Some? then 4 else 0
      ensures match TakeU32(old(Rest()))
        case Some(t) => r == Some(t.value) && Rest() == t.rest
        case None => r == None
    {
      ghost var s := Rest();
      var b := Take(4);
      if b.None? { return None; }
      assert forall k | 0 <= k < 4 :: b.value[k] == s[k];
      r := Some(U32At(b.value, 0));
    }

    // The fields of one row, in order.
    method Row(widths: seq<nat>) returns (r: Option<seq<nat>>)
      requires Valid()
      modifies this`offset
      ensures Valid() && offset >= old(offset)
      ensures match TakeFields(old(Rest()), widths)
        case Some(t) => r == Some(t.value) && Rest() == t.rest
        case None => r == None
    {
      ghost var s := Rest();
      var values: seq<nat>, k: nat := [], 0;
      while k < |widths|
        invariant Valid() && k <= |widths| && offset >= old(offset)
        invariant TakeFields(s, widths[..k]) == Some(Took(values, Rest()))
      {
        TakeFieldsStep(s, widths, k);
        var x;
        if widths[k] == 1 { x := U8(); } else { x := U32(); }
        if x.None? {
          TakeFieldsStops(s, widths, k + 1);
          return None;
        }
        values, k := values + [x.value], k + 1;
      }
      assert widths[..k] == widths;
      r := Some(values);
    }
  }

  lemma BytesTaken(s: seq<Byte>, b: seq<Byte>, rest: seq<Byte>)
    ensures TakeBytes(s, |b|) == Some(Took(b, rest)) <==> s == b + rest
  {
    if |b| <= |s| {
      assert s == s[..|b|] + s[|b|..];
    }
  }

  // ---------- one field ----------

  predicate FieldFits(x: nat, width: nat) { x < if width == 1 then 256 else U32_LIMIT }

  function FieldBytes(x: nat, width: nat): (b: seq<Byte>)
    requires FieldFits(x, width)
    ensures |b| == FieldLength(width)
  {
    if width == 1 then [x] else U32Bytes(x)
  }

  function FieldLength(width: nat): nat { if width == 1 then 1 else 4 }

  function TakeField(s: seq<Byte>, width: nat): Option<Took<nat>> {
    if width == 1 then TakeU8(s) else TakeU32(s)
  }

  lemma FieldTaken(s: seq<Byte>, width: nat, x: nat, rest: seq<Byte>)
    ensures TakeField(s, width) == Some(Took(x, rest)) <==> FieldFits(x, width) && s == FieldBytes(x, width) + rest
  {
    if FieldFits(x, width) && s == FieldBytes(x, width) + rest {
      assert s[FieldLength(width)..] == rest;
      if width != 1 {
        U32RoundTrip(x, [], rest);
        assert [] + U32Bytes(x) + rest == s;
      }
    }
    if TakeField(s, width) == Some(Took(x, rest)) {
      assert s == s[..FieldLength(width)] + s[FieldLength(width)..];
      if width == 1 {
        assert s[..1] == [s[0]];
      } else {
        U32Unique(s, 0);
        assert s[0..4] == s[..4];
      }
    }
  }

  // ---------- a row of fields ----------

  ghost predicate RowFits(values: seq<nat>, widths: seq<nat>) {
    |values| == |widths| && forall k | 0 <= k < |values| :: FieldFits(values[k], widths[k])
  }

  function RowLength(widths: seq<nat>): nat {
    if widths == [] then 0 else RowLength(widths[..|widths| - 1]) + FieldLength(widths[|widths| - 1])
  }

  ghost function Pack(values: seq<nat>, widths: seq<nat>): (b: seq<Byte>)
    requires RowFits(values, widths)
    ensures |b| == RowLength(widths)
  {
    if values == [] then []
    else
      var n := |values| - 1;
      Pack(values[..n], widths[..n]) + FieldBytes(values[n], widths[n])
  }

  ghost function TakeFields(s: seq<Byte>, widths: seq<nat>): Option<Took<seq<nat>>> {
    if widths == [] then Some(Took([], s))
    else
      var n := |widths| - 1;
      match TakeFields(s, widths[..n])
      case None => None
      case Some(t) =>
        match TakeField(t.rest, widths[n])
        case None => None
        case Some(f) => Some(Took(t.value + [f.value], f.rest))
  }

  lemma TakeFieldsStep(s: seq<Byte>, widths: seq<nat>, k: nat)
    requires k < |widths|
    ensures TakeFields(s, widths[..k + 1]) ==
      match TakeFields(s, widths[..k])
      case None => None
      case Some(t) =>
        match TakeField(t.rest, widths[k])
        case None => None
        case Some(f) => Some(Took(t.value + [f.value], f.rest))
  {
    assert widths[..k + 1][..k] == widths[..k];
  }

  lemma {:induction false} TakeFieldsStops(s: seq<Byte>, widths: seq<nat>, k: nat)
    requires k <= |widths| && TakeFields(s, widths[..k]).None?
    ensures TakeFields(s, widths).None?
    decreases |widths|
  {
    if k == |widths| {
      assert widths[..k] == widths;
    } else {
      var n: nat := |widths| - 1;
      assert widths[..n][..k] == widths[..k];
      TakeFieldsStops(s, widths[..n], k);
    }
  }

  // Reading a row succeeds exactly on its packed bytes.
  lemma {:induction false} RowTaken(s: seq<Byte>, widths: seq<nat>, values: seq<nat>, rest: seq<Byte>)
    ensures TakeFields(s, widths) == Some(Took(values, rest)) <==>
            RowFits(values, widths) && s == Pack(values, widths) + rest
    decreases |widths|
  {
    if widths == [] {
      assert s == rest <==> s == [] + rest;
    } else {
      if TakeFields(s, widths) == Some(Took(values, rest)) {
        TakenIsPacked(s, widths, values, rest);
      }
      if RowFits(values, widths) && s == Pack(values, widths) + rest {
        PackedIsTaken(s, widths, values, rest);
      }
    }
  }

  lemma {:induction false} PackedIsTaken(s: seq<Byte>, widths: seq<nat>, values: seq<nat>, rest: seq<Byte>)
    requires widths != [] && RowFits(values, widths) && s == Pack(values, widths) + rest
    ensures TakeFields(s, widths) == Some(Took(values, rest))
    decreases |widths|, 0
  {
    hide TakeField, FieldBytes, FieldFits;
    var n: nat := |widths| - 1;
    var last := FieldBytes(values[n], widths[n]);
    assert s == Pack(values[..n], widths[..n]) + (last + rest);
    RowTaken(s, widths[..n], values[..n], last + rest);
    FieldTaken(last + rest, widths[n], values[n], rest);
    assert values[..n] + [values[n]] == values;
  }

  lemma {:induction false} TakenIsPacked(s: seq<Byte>, widths: seq<nat>, values: seq<nat>, rest: seq<Byte>)
    requires widths != [] && TakeFields(s, widths) == Some(Took(values, rest))
    ensures RowFits(values, widths) && s == Pack(values, widths) + rest
    decreases |widths|, 0
  {
    hide TakeField, FieldBytes, FieldFits, RowFits, Pack;
    var n: nat := |widths| - 1;
    var t := TakeFields(s, widths[..n]).value;
    RowTaken(s, widths[..n], t.value, t.rest);
    FitsLength(t.value, widths[..n]);
    FieldTaken(t.rest, widths[n], values[n], rest);
    assert values[..n] == t.value;
    FitsGrow(values, widths);
    PackGrows(values, widths);
    Reassociate(Pack(values[..n], widths[..n]), FieldBytes(values[n], widths[n]), rest);
  }

  lemma FitsLength(values: seq<nat>, widths: seq<nat>)
    requires RowFits(values, widths)
    ensures |values| == |widths|
  {
  }

  lemma FitsGrow(values: seq<nat>, widths: seq<nat>)
    requires widths != [] && values != []
    requires var (k, n) := (|values| - 1, |widths| - 1);
      RowFits(values[..k], widths[..n]) && FieldFits(values[k], widths[n])
    ensures RowFits(values, widths)
  {
    hide FieldFits;
    var n := |widths| - 1;
    forall k | 0 <= k < |values| ensures FieldFits(values[k], widths[k]) {
      assert k < n ==> values[..n][k] == values[k] && widths[..n][k] == widths[k];
    }
  }

  lemma PackGrows(values: seq<nat>, widths: seq<nat>)
    requires widths != [] && RowFits(values, widths)
    ensures var n := |widths| - 1;
      && RowFits(values[..n], widths[..n])
      && Pack(values, widths) == Pack(values[..n], widths[..n]) + FieldBytes(values[n], widths[n])
  {
    hide FieldFits, FieldBytes;
  }
}
