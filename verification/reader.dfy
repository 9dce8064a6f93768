/** Reading registers (battery_smart_lifepo4.py:129-173 and 192-200).

  `read_register` asks the instrument for a register's words, assembles them
  by type and applies the scaling rule; `read_register_or_false` turns any
  exception into `False`; `read_registers` walks the table and keeps, in
  table order, the fields whose read returned.

  The instrument becomes a `Transport`: a pure function from the slave
  address the instrument is set to, the first register and the register
  count to the words the slave answered, or `None` when the request raised.
 */
module Reader {
  import opened Base
  import opened Words
  import opened Rules
  import opened Schema
  import AsciiCodec

  type Transport = (nat, nat, nat) -> Option<seq<Word>>

  /** The words of a reply do not reach as far as the assembly loop indexes:
      a `sint` read looks at the first word even for a zero-word register. */
  predicate Short(reg: Register, raw: seq<Word>)
  {
    if reg.kind == "sint" then |raw| == 0 || |raw| < reg.length
    else reg.kind == "uint" && |raw| < reg.length
  }

  /** The raw value a complete reply stands for: the words read as one
      big-endian number, less 32768 for a `sint` whose first word exceeds
      32768. */
  function RawValue(reg: Register, raw: seq<Word>): int
    requires (reg.kind == "uint" || reg.kind == "sint") && !Short(reg, raw)
  {
    var v := WordsValue(raw[..reg.length]);
    if reg.kind == "sint" && raw[0] > 0x8000 then v - 0x8000 else v
  }

  /** `read_register(instrument, reg)` with the instrument set to `slave`. */
  function ReadRegister(t: Transport, slave: nat, reg: Register): (r: Result<Value>)
    ensures r == Raised(CommunicationError) <==> t(slave, reg.address, reg.length).None?
    ensures r == Raised(IndexError) <==>
      t(slave, reg.address, reg.length).Some? && Short(reg, t(slave, reg.address, reg.length).value)
    ensures t(slave, reg.address, reg.length).Some? && reg.kind != "uint" && reg.kind != "sint" ==>
      r == Ok(NoneValue)
    ensures var reply := t(slave, reg.address, reg.length);
      reply.Some? && (reg.kind == "uint" || reg.kind == "sint") && !Short(reg, reply.value) ==>
        r == Scale(reg.scaling, RawValue(reg, reply.value))
    ensures r != Ok(FalseValue)
  {
    match t(slave, reg.address, reg.length)
    case None => Raised(CommunicationError)
    case Some(raw) =>
      if reg.kind == "sint" then
        if |raw| == 0 || |raw| < reg.length then Raised(IndexError)
        else Scale(reg.scaling, AssembleSigned(raw, reg.length))
      else if reg.kind == "uint" then
        if |raw| < reg.length then Raised(IndexError)
        else Scale(reg.scaling, Assemble(raw, reg.length))
      else Ok(NoneValue)
  }

  /** `read_register_or_false`: `False` exactly when the read raised. */
  function ReadRegisterOrFalse(t: Transport, slave: nat, reg: Register): (v: Value)
    ensures v == FalseValue <==> ReadRegister(t, slave, reg).Raised?
    ensures ReadRegister(t, slave, reg).Ok? ==> v == ReadRegister(t, slave, reg).value
  {
    match ReadRegister(t, slave, reg)
    case Ok(v) => v
    case Raised(_) => FalseValue
  }

  // ---------------------------------------------------------------------
  // The result dict of read_registers

  /** One key/value pair of a dict built by `read_registers`. */
  datatype Field = Field(name: string, value: Value)

  function Keys(d: seq<Field>): (ks: seq<string>)
    ensures |ks| == |d|
    ensures forall k :: 0 <= k < |d| ==> ks[k] == d[k].name
  {
    seq(|d|, k requires 0 <= k < |d| => d[k].name)
  }

  predicate DistinctKeys(d: seq<Field>)
  {
    forall k, l :: 0 <= k < l < |d| ==> d[k].name != d[l].name
  }

  /** Where `name` sits among the keys: the first field carrying it. */
  function KeyIndex(d: seq<Field>, name: string): (r: Option<nat>)
    ensures r.None? <==> name !in Keys(d)
    ensures r.Some? ==> r.value < |d| && d[r.value].name == name
    ensures r.Some? ==> forall l :: 0 <= l < r.value ==> d[l].name != name
    decreases |d|
  {
    if |d| == 0 then None
    else if d[0].name == name then Some(0)
    else
      assert Keys(d) == [d[0].name] + Keys(d[1..]);
      match KeyIndex(d[1..], name)
      case None => None
      case Some(i) => Some(i + 1)
  }

  /** `d[name]`, or `None` when `name` is not a key. */
  function Lookup(d: seq<Field>, name: string): (r: Option<Value>)
    ensures r.None? <==> name !in Keys(d)
    ensures r.Some? ==> exists k :: 0 <= k < |d| && d[k] == Field(name, r.value)
  {
    match KeyIndex(d, name)
    case None => None
    case Some(i) => Some(d[i].value)
  }

  /** `d[name] = value`: a present key keeps its place and takes the new
      value; a new key goes at the end. */
  function Put(d: seq<Field>, name: string, value: Value): (r: seq<Field>)
    ensures name !in Keys(d) ==> r == d + [Field(name, value)]
    ensures name in Keys(d) ==> |r| == |d| && Keys(r) == Keys(d)
    ensures forall k :: 0 <= k < |d| && d[k].name != name ==> r[k] == d[k]
    ensures DistinctKeys(d) ==> DistinctKeys(r)
    ensures Lookup(r, name) == Some(value)
  {
    match KeyIndex(d, name)
    case None =>
      var r := d + [Field(name, value)];
      LookupDistinct(r, |d|);
      r
    case Some(i) =>
      var r := d[i := Field(name, value)];
      assert Keys(r) == Keys(d);
      LookupDistinct(r, i);
      r
  }

  // ---------------------------------------------------------------------
  // read_registers

  /** The indices of the rows whose read returns, in table order. */
  function Survivors(t: Transport, slave: nat, schema: seq<Entry>): (idx: seq<nat>)
    ensures forall k :: 0 <= k < |idx| ==> idx[k] < |schema|
    ensures forall k, l :: 0 <= k < l < |idx| ==> idx[k] < idx[l]
    ensures forall i :: 0 <= i < |schema| ==> (i in idx <==> ReadRegister(t, slave, schema[i].register).Ok?)
    decreases |schema|
  {
    if |schema| == 0 then []
    else
      var n := |schema| - 1;
      var front := schema[..n];
      assert forall i :: 0 <= i < n ==> front[i] == schema[i];
      Survivors(t, slave, front) + if ReadRegister(t, slave, schema[n].register).Ok? then [n] else []
  }

  /** What `read_registers` returns for a table: the fields whose read
      returned, in table order, each with the value it returned. */
  function Batch(t: Transport, slave: nat, schema: seq<Entry>): seq<Field>
    decreases |schema|
  {
    if |schema| == 0 then []
    else
      var n := |schema| - 1;
      Batch(t, slave, schema[..n]) +
        match ReadRegister(t, slave, schema[n].register)
        case Ok(v) => [Field(schema[n].name, v)]
        case Raised(_) => []
  }

  /** The batch is the table restricted to the surviving rows. */
  lemma {:induction false} BatchAtSurvivors(t: Transport, slave: nat, schema: seq<Entry>)
    ensures var d, idx := Batch(t, slave, schema), Survivors(t, slave, schema);
      |d| == |idx| &&
      forall k :: 0 <= k < |d| ==>
        d[k] == Field(schema[idx[k]].name, ReadRegister(t, slave, schema[idx[k]].register).value)
    decreases |schema|
  {
    if |schema| > 0 {
      var n := |schema| - 1;
      var front := schema[..n];
      BatchAtSurvivors(t, slave, front);
      var d0, idx0 := Batch(t, slave, front), Survivors(t, slave, front);
      var d, idx := Batch(t, slave, schema), Survivors(t, slave, schema);
      var r := ReadRegister(t, slave, schema[n].register);
      assert d == d0 + (if r.Ok? then [Field(schema[n].name, r.value)] else []);
      assert idx == idx0 + (if r.Ok? then [n] else []);
      forall k | 0 <= k < |d|
        ensures d[k] == Field(schema[idx[k]].name, ReadRegister(t, slave, schema[idx[k]].register).value)
      {
        if k < |d0| {
          assert d[k] == d0[k] && idx[k] == idx0[k];
          assert front[idx0[k]] == schema[idx0[k]];
        }
      }
    }
  }

  /** With distinct names (the table is a dict), looking a row up in the
      batch gives what its read returned, and nothing when it raised. */
  lemma BatchLookup(t: Transport, slave: nat, schema: seq<Entry>, i: nat)
    requires NamesUnique(schema)
    requires i < |schema|
    ensures Lookup(Batch(t, slave, schema), schema[i].name) ==
      match ReadRegister(t, slave, schema[i].register)
      case Ok(v) => Some(v)
      case Raised(_) => None
  {
    var d, idx := Batch(t, slave, schema), Survivors(t, slave, schema);
    BatchAtSurvivors(t, slave, schema);
    var name := schema[i].name;
    var r := ReadRegister(t, slave, schema[i].register);
    if r.Ok? {
      assert i in idx;
      var k :| 0 <= k < |idx| && idx[k] == i;
      assert d[k] == Field(name, r.value);
      BatchDistinct(t, slave, schema);
      LookupDistinct(d, k);
    }
  }

  /** One step of the loop: with distinct names, the next row's field is
      new to the batch so far, and assigning it extends the batch by that
      row. */
  lemma BatchStep(t: Transport, slave: nat, schema: seq<Entry>, i: nat)
    requires NamesUnique(schema)
    requires i < |schema|
    ensures var r := ReadRegister(t, slave, schema[i].register);
      r.Ok? ==> Batch(t, slave, schema[..i + 1]) == Put(Batch(t, slave, schema[..i]), schema[i].name, r.value)
    ensures ReadRegister(t, slave, schema[i].register).Raised? ==>
      Batch(t, slave, schema[..i + 1]) == Batch(t, slave, schema[..i])
  {
    var pre := schema[..i];
    assert schema[..i + 1][..i] == pre;
    var d := Batch(t, slave, pre);
    BatchAtSurvivors(t, slave, pre);
    var idx := Survivors(t, slave, pre);
    forall k | 0 <= k < |d|
      ensures Keys(d)[k] != schema[i].name
    {
      assert d[k].name == pre[idx[k]].name;
    }
  }

  /** Looking up the key of the k-th field finds that field when no earlier
      field has the same key. */
  lemma LookupDistinct(d: seq<Field>, k: nat)
    requires k < |d|
    requires forall l :: 0 <= l < k ==> d[l].name != d[k].name
    ensures Lookup(d, d[k].name) == Some(d[k].value)
  {
    var r := KeyIndex(d, d[k].name);
    assert d[k].name in Keys(d);
  }

  /** With distinct table names the batch has distinct keys. */
  lemma BatchDistinct(t: Transport, slave: nat, schema: seq<Entry>)
    requires NamesUnique(schema)
    ensures DistinctKeys(Batch(t, slave, schema))
  {
    var d, idx := Batch(t, slave, schema), Survivors(t, slave, schema);
    BatchAtSurvivors(t, slave, schema);
  }

  /** Assigning a key leaves the keys already there in their places, and a
      new key goes last. */
  lemma PutKeepsKeys(d: seq<Field>, name: string, v: Value)
    ensures var r := Put(d, name, v);
      |r| == |d| || (|r| == |d| + 1 && r[|d|].name == name)
    ensures var r := Put(d, name, v);
      forall k :: 0 <= k < |d| ==> r[k].name == d[k].name
  {
    var r := Put(d, name, v);
    if name in Keys(d) {
      forall k | 0 <= k < |d|
        ensures r[k].name == d[k].name
      {
        assert Keys(r)[k] == Keys(d)[k];
      }
    }
  }

  /** `read_registers(instrument)` over the table `schema`: the loop as
      written, assigning `values[name]` for each row whose read returns and
      skipping each that raises. */
  method ReadRegisters(t: Transport, slave: nat, schema: seq<Entry>) returns (values: seq<Field>)
    ensures DistinctKeys(values)
    ensures forall k :: 0 <= k < |values| ==>
      exists i :: 0 <= i < |schema| && schema[i].name == values[k].name
    ensures NamesUnique(schema) ==> values == Batch(t, slave, schema)
  {
    values := [];
    ghost var origin: seq<nat> := [];
    for i := 0 to |schema|
      invariant DistinctKeys(values)
      invariant |origin| == |values|
      invariant forall k :: 0 <= k < |values| ==> origin[k] < i && schema[origin[k]].name == values[k].name
      invariant NamesUnique(schema) ==> values == Batch(t, slave, schema[..i])
    {
      var entry := schema[i];
      var r := ReadRegister(t, slave, entry.register);
      if NamesUnique(schema) {
        BatchStep(t, slave, schema, i);
      }
      if r.Ok? {
        PutKeepsKeys(values, entry.name, r.value);
        origin := if |Put(values, entry.name, r.value)| == |values| then origin else origin + [i];
        values := Put(values, entry.name, r.value);
      }
    }
    forall k | 0 <= k < |values|
      ensures exists j :: 0 <= j < |schema| && schema[j].name == values[k].name
    {
      assert schema[origin[k]].name == values[k].name;
    }
    assert schema[..|schema|] == schema;
  }

  /** `read_registers` over the register table: a field is present exactly
      when its read returned, and holds what the read returned. */
  method ReadTable(t: Transport, slave: nat) returns (values: seq<Field>)
    ensures |values| <= |Registers()|
    ensures forall i :: 0 <= i < |Registers()| ==>
      Lookup(values, Registers()[i].name) ==
        match ReadRegister(t, slave, Registers()[i].register)
        case Ok(v) => Some(v)
        case Raised(_) => None
  {
    values := ReadRegisters(t, slave, Registers());
    RegistersNamesUnique();
    BatchAtSurvivors(t, slave, Registers());
    NoMoreSurvivorsThanRows(Survivors(t, slave, Registers()), |Registers()|);
    forall i | 0 <= i < |Registers()|
      ensures Lookup(values, Registers()[i].name) ==
        match ReadRegister(t, slave, Registers()[i].register)
        case Ok(v) => Some(v)
        case Raised(_) => None
    {
      BatchLookup(t, slave, Registers(), i);
    }
  }

  /** A strictly increasing sequence of indices below n has at most n
      elements. */
  lemma {:induction false} NoMoreSurvivorsThanRows(idx: seq<nat>, n: nat)
    requires forall k :: 0 <= k < |idx| ==> idx[k] < n
    requires forall k, l :: 0 <= k < l < |idx| ==> idx[k] < idx[l]
    ensures |idx| <= n
    decreases n
  {
    if |idx| > 0 {
      var front := idx[..|idx| - 1];
      assert forall k :: 0 <= k < |front| ==> front[k] < idx[|idx| - 1] < n;
      NoMoreSurvivorsThanRows(front, n - 1);
    }
  }

  /** Every row of the table is a `uint` or a `sint`, so no read of the
      table takes the unsupported-type branch that returns `None`. */
  lemma TableNeverNone(t: Transport, slave: nat, i: nat)
    requires i < |Registers()|
    ensures ReadRegister(t, slave, Registers()[i].register) != Ok(NoneValue)
  {
    RegistersSound();
    assert RowSound(Registers()[i], 0x1388, 0x1468);
  }

  /** The model name read end to end: a slave that answers the eight
      words at 0x1402 with the text, NUL-padded to sixteen bytes, yields the
      text. */
  lemma ReadModelText(t: Transport, slave: nat, s: string, pad: nat)
    requires 1 <= |s| && 0x10 <= s[0] as int
    requires forall i :: 0 <= i < |s| ==> 0x01 <= s[i] as int < 0x80
    requires |s| + pad == 16
    requires t(slave, 0x1402, 8) == Some(AsciiCodec.Pack(AsciiCodec.Encode(s) + AsciiCodec.Zeros(pad)))
    ensures Identity[0].name == "model"
    ensures ReadRegister(t, slave, Identity[0].register) == Ok(TextValue(s))
  {
    var raw := AsciiCodec.Pack(AsciiCodec.Encode(s) + AsciiCodec.Zeros(pad));
    assert raw[..8] == raw;
    AsciiCodec.AsciiRoundTrip(s, pad);
  }

  /** The signed current: one word 40000 (above 32768) gives the raw value
      7232, scaled by 0.1 to two places. */
  lemma ReadCurrentExample(t: Transport, slave: nat)
    requires t(slave, 0x13b2, 1) == Some([40000])
    ensures PackReadings[0].name == "current"
    ensures ReadRegister(t, slave, PackReadings[0].register) ==
      Ok(LinearValue(Decimal(1, 1), 0, 2, 7232))
  {
    var raw: seq<Word> := [40000];
    assert raw[..1] == raw;
    assert WordsValue(raw) == 40000;
  }
}
