/** The register table `REGISTERS` (battery_smart_lifepo4.py:17-118).

  The source holds it in a dict literal whose insertion order is the order
  `read_registers` visits and reports the fields in. The model keeps that
  order as a sequence of named entries. Runs of placeholder rows, which the
  source names after their address (`unknown_0x138d`), are written as
  `Unknowns(lo, hi)`. The table is not sorted by address, and a two-word
  field can cover the address of a later single-word row: nothing in the
  source forbids either.
 */
module Schema {
  import opened Rules
  import AsciiCodec

  /** One register definition. `kind` keeps the source's type string
      (`'uint'`, `'sint'`), so that any other string can be written down and
      reaches `read_register`'s unsupported-type branch. */
  datatype Register = Register(address: nat, length: nat, kind: string, scaling: Rule, unit: string)

  /** A table row: the dict key and its definition. */
  datatype Entry = Entry(name: string, register: Register)

  /** A placeholder row, named `'unknown_' + hex(address)`: one `uint` word
      passed through unchanged, with no unit. */
  function Unknown(address: nat): (e: Entry)
    ensures e.register == Register(address, 1, "uint", Identical, "")
  {
    Entry("unknown_" + AsciiCodec.Hex(address), Register(address, 1, "uint", Identical, ""))
  }

  /** The placeholder rows for addresses lo, lo + 1, ..., hi - 1. */
  function Unknowns(lo: nat, hi: nat): (s: seq<Entry>)
    requires lo <= hi
    ensures |s| == hi - lo
    ensures forall i :: 0 <= i < |s| ==> s[i] == Unknown(lo + i)
  {
    seq(hi - lo, i requires 0 <= i < hi - lo => Unknown(lo + i))
  }

  /** `cell_count` and the four cell voltages, 0x1388..0x138c. */
  const Cells: seq<Entry> := [
    Entry("cell_count", Register(0x1388, 1, "uint", Identical, "cells")),
    Entry("cellvoltage_1", Register(0x1389, 1, "uint", Linear(Decimal(1, 1), 0, 2), "V")),
    Entry("cellvoltage_2", Register(0x138a, 1, "uint", Linear(Decimal(1, 1), 0, 2), "V")),
    Entry("cellvoltage_3", Register(0x138b, 1, "uint", Linear(Decimal(1, 1), 0, 2), "V")),
    Entry("cellvoltage_4", Register(0x138c, 1, "uint", Linear(Decimal(1, 1), 0, 2), "V"))
  ]

  /** The four cell temperatures, 0x139a..0x139d, listed before 0x1391. */
  const CellTemperatures: seq<Entry> := [
    Entry("celltemp_1", Register(0x139a, 1, "uint", Linear(Decimal(1, 1), 0, -1), "°c")),
    Entry("celltemp_2", Register(0x139b, 1, "uint", Linear(Decimal(1, 1), 0, -1), "°c")),
    Entry("celltemp_3", Register(0x139c, 1, "uint", Linear(Decimal(1, 1), 0, -1), "°c")),
    Entry("celltemp_4", Register(0x139d, 1, "uint", Linear(Decimal(1, 1), 0, -1), "°c"))
  ]

  /** Current (the one signed field), voltage and the two charge counters,
      which take two words each. */
  const PackReadings: seq<Entry> := [
    Entry("current", Register(0x13b2, 1, "sint", Linear(Decimal(1, 1), 0, 2), "A")),
    Entry("voltage", Register(0x13b3, 1, "uint", Linear(Decimal(1, 1), 0, 2), "V")),
    Entry("remaining_charge", Register(0x13b4, 2, "uint", Linear(Decimal(1, 3), 0, 2), "Ah")),
    Entry("charge_capacity", Register(0x13b6, 2, "uint", Linear(Decimal(1, 3), 0, -1), "Ah"))
  ]

  const VoltageLimits: seq<Entry> := [
    Entry("maximum_voltage?", Register(0x13b9, 1, "uint", Linear(Decimal(1, 1), 0, 1), "V")),
    Entry("minimum_voltage?", Register(0x13ba, 1, "uint", Linear(Decimal(1, 1), 0, 1), "V"))
  ]

  const Heater: seq<Entry> := [
    Entry("heater_level", Register(0x13ef, 1, "uint", Linear(Decimal(1, 0), 0, 0), "%"))
  ]

  const Serial: seq<Entry> := [
    Entry("serial", Register(0x13f6, 8, "uint", Ascii(0), ""))
  ]

  /** The three text fields read after the serial number. */
  const Identity: seq<Entry> := [
    Entry("model", Register(0x1402, 8, "uint", Ascii(0), "")),
    Entry("firmware_version", Register(0x140a, 2, "uint", Ascii(0), "")),
    Entry("manufacturer", Register(0x140c, 4, "uint", Ascii(0), ""))
  ]

  const Echo: seq<Entry> := [
    Entry("device_address_echo", Register(0x1467, 1, "uint", Identical, ""))
  ]

  /** The whole table, in the dict's insertion order. */
  function Registers(): seq<Entry>
  {
    Cells
    + Unknowns(0x138d, 0x1391)
    + CellTemperatures
    + Unknowns(0x1391, 0x139a)
    + Unknowns(0x139e, 0x13aa)
    + Unknowns(0x13ab, 0x13b2)
    + PackReadings
    + Unknowns(0x13b7, 0x13b9)
    + VoltageLimits
    + Unknowns(0x13bb, 0x13bd)
    + Unknowns(0x13ec, 0x13ef)
    + Heater
    + Unknowns(0x13f0, 0x13f6)
    + Serial
    + Unknowns(0x13fe, 0x1402)
    + Identity
    + Unknowns(0x1410, 0x1416)
    + Unknowns(0x1450, 0x1467)
    + Echo
  }

  /** The names of the table are distinct, as the keys of a dict literal
      must be. */
  ghost predicate NamesUnique(schema: seq<Entry>)
  {
    forall i, j :: 0 <= i < j < |schema| ==> schema[i].name != schema[j].name
  }

  /** The address a name of the table stands for. Its one job is to turn
      distinct addresses into distinct names: `RowSound` requires every row's
      name to stand for that row's address, so two rows at different
      addresses cannot share a name (`RegistersNamesUnique`). A placeholder
      name spells its address in hex and is read back. The 21 named fields
      are told apart by the name's length, second and last characters (a
      cheaper key for the solver than the whole string), and
      `NamedAddress` repeats their addresses as the table writes them. */
  ghost function AddressOfName(name: string): nat
  {
    if |name| > 10 && name[0] == 'u' && name[..10] == "unknown_0x" then AsciiCodec.ParseHex(name[10..])
    else if |name| < 2 then 0
    else NamedAddress(|name|, name[1], name[|name| - 1])
  }

  ghost function NamedAddress(length: nat, second: char, last: char): nat
  {
    if length == 10 && second == 'e' && last == 't' then 0x1388  // cell_count
    else if length == 13 && second == 'e' && last == '1' then 0x1389  // cellvoltage_1
    else if length == 13 && second == 'e' && last == '2' then 0x138a  // cellvoltage_2
    else if length == 13 && second == 'e' && last == '3' then 0x138b  // cellvoltage_3
    else if length == 13 && second == 'e' && last == '4' then 0x138c  // cellvoltage_4
    else if length == 10 && second == 'e' && last == '1' then 0x139a  // celltemp_1
    else if length == 10 && second == 'e' && last == '2' then 0x139b  // celltemp_2
    else if length == 10 && second == 'e' && last == '3' then 0x139c  // celltemp_3
    else if length == 10 && second == 'e' && last == '4' then 0x139d  // celltemp_4
    else if length == 7 && second == 'u' && last == 't' then 0x13b2  // current
    else if length == 7 && second == 'o' && last == 'e' then 0x13b3  // voltage
    else if length == 16 && second == 'e' && last == 'e' then 0x13b4  // remaining_charge
    else if length == 15 && second == 'h' && last == 'y' then 0x13b6  // charge_capacity
    else if length == 16 && second == 'a' && last == '?' then 0x13b9  // maximum_voltage?
    else if length == 16 && second == 'i' && last == '?' then 0x13ba  // minimum_voltage?
    else if length == 12 && second == 'e' && last == 'l' then 0x13ef  // heater_level
    else if length == 6 && second == 'e' && last == 'l' then 0x13f6  // serial
    else if length == 5 && second == 'o' && last == 'l' then 0x1402  // model
    else if length == 16 && second == 'i' && last == 'n' then 0x140a  // firmware_version
    else if length == 12 && second == 'a' && last == 'r' then 0x140c  // manufacturer
    else if length == 19 && second == 'e' && last == 'o' then 0x1467  // device_address_echo
    else 0
  }

  lemma UnknownName(address: nat)
    ensures var name := Unknown(address).name;
      |name| > 10 && name[..10] == "unknown_0x" && AddressOfName(name) == address
  {
    var name := Unknown(address).name;
    var digits := AsciiCodec.HexString(AsciiCodec.HexDigits(address));
    assert name == "unknown_0x" + digits;
    assert name[..10] == "unknown_0x" && name[10..] == digits;
    AsciiCodec.ParseHexDigits(address);
  }

  /** Facts about a stretch of the table: every row is a `uint` or `sint`
      field of 1, 2, 4 or 8 words, only `current` is signed, its name stands
      for its address, the addresses are distinct and lie in [lo, hi). */
  ghost predicate RowSound(e: Entry, lo: nat, hi: nat)
  {
    var r := e.register;
    (r.kind == "uint" || r.kind == "sint")
    && (r.length == 1 || r.length == 2 || r.length == 4 || r.length == 8)
    && (r.kind == "sint" <==> e.name == "current")
    && AddressOfName(e.name) == r.address
    && lo <= r.address < hi
  }

  ghost predicate Sound(s: seq<Entry>, lo: nat, hi: nat)
  {
    (forall i :: 0 <= i < |s| ==> RowSound(s[i], lo, hi))
    && (forall i, j :: 0 <= i < j < |s| ==> s[i].register.address != s[j].register.address)
  }

  lemma UnknownsSound(lo: nat, hi: nat)
    requires lo <= hi
    ensures Sound(Unknowns(lo, hi), lo, hi)
  {
    forall a: nat {
      UnknownName(a);
    }
  }

  lemma CellsSound()
    ensures Sound(Cells, 0x1388, 0x138d)
  {
    assert forall i :: 0 <= i < |Cells| ==> RowSound(Cells[i], 0x1388, 0x138d);
    assert forall i, j :: 0 <= i < j < |Cells| ==> Cells[i].register.address != Cells[j].register.address;
  }

  lemma CellTemperaturesSound()
    ensures Sound(CellTemperatures, 0x139a, 0x139e)
  {
    assert forall i :: 0 <= i < |CellTemperatures| ==> RowSound(CellTemperatures[i], 0x139a, 0x139e);
    assert forall i, j :: 0 <= i < j < |CellTemperatures| ==> CellTemperatures[i].register.address != CellTemperatures[j].register.address;
  }

  lemma PackReadingsSound()
    ensures Sound(PackReadings, 0x13b2, 0x13b7)
  {
    assert forall i :: 0 <= i < |PackReadings| ==> RowSound(PackReadings[i], 0x13b2, 0x13b7);
    assert forall i, j :: 0 <= i < j < |PackReadings| ==> PackReadings[i].register.address != PackReadings[j].register.address;
  }

  lemma VoltageLimitsSound()
    ensures Sound(VoltageLimits, 0x13b9, 0x13bb)
  {
    assert forall i :: 0 <= i < |VoltageLimits| ==> RowSound(VoltageLimits[i], 0x13b9, 0x13bb);
    assert forall i, j :: 0 <= i < j < |VoltageLimits| ==> VoltageLimits[i].register.address != VoltageLimits[j].register.address;
  }

  lemma HeaterSound()
    ensures Sound(Heater, 0x13ef, 0x13f0)
  {
    assert forall i :: 0 <= i < |Heater| ==> RowSound(Heater[i], 0x13ef, 0x13f0);
  }

  lemma SerialSound()
    ensures Sound(Serial, 0x13f6, 0x13f7)
  {
    assert forall i :: 0 <= i < |Serial| ==> RowSound(Serial[i], 0x13f6, 0x13f7);
  }

  lemma IdentitySound()
    ensures Sound(Identity, 0x1402, 0x140d)
  {
    assert forall i :: 0 <= i < |Identity| ==> RowSound(Identity[i], 0x1402, 0x140d);
    assert forall i, j :: 0 <= i < j < |Identity| ==> Identity[i].register.address != Identity[j].register.address;
  }

  lemma EchoSound()
    ensures Sound(Echo, 0x1467, 0x1468)
  {
    assert forall i :: 0 <= i < |Echo| ==> RowSound(Echo[i], 0x1467, 0x1468);
  }

  /** Two sound stretches, the second above the first, join into one. */
  lemma {:induction false} Join(a: seq<Entry>, b: seq<Entry>, lo: nat, mid: nat, mid': nat, hi: nat)
    requires Sound(a, lo, mid) && Sound(b, mid', hi) && lo <= mid <= mid' <= hi
    ensures Sound(a + b, lo, hi)
  {
    var s := a + b;
    forall i, j | 0 <= i < j < |s|
      ensures s[i].register.address != s[j].register.address
    {
      if j < |a| {
        assert s[i] == a[i] && s[j] == a[j];
      } else if i >= |a| {
        assert s[i] == b[i - |a|] && s[j] == b[j - |a|];
      } else {
        assert s[i] == a[i] && s[j] == b[j - |a|];
      }
    }
    forall i | 0 <= i < |s|
      ensures RowSound(s[i], lo, hi)
    {
      if i < |a| {
        assert s[i] == a[i];
      } else {
        assert s[i] == b[i - |a|];
      }
    }
  }

  /** A sound stretch joins a sound one whose addresses fill a gap it
      leaves. */
  lemma {:induction false} JoinIntoGap(a: seq<Entry>, c: seq<Entry>, lo: nat, hi: nat, glo: nat, ghi: nat)
    requires Sound(a, lo, hi) && Sound(c, glo, ghi) && lo <= glo <= ghi <= hi
    requires forall i :: 0 <= i < |a| ==> !(glo <= a[i].register.address < ghi)
    ensures Sound(a + c, lo, hi)
  {
    var s := a + c;
    forall i, j | 0 <= i < j < |s|
      ensures s[i].register.address != s[j].register.address
    {
      if j < |a| {
        assert s[i] == a[i] && s[j] == a[j];
      } else if i >= |a| {
        assert s[i] == c[i - |a|] && s[j] == c[j - |a|];
      } else {
        assert s[i] == a[i] && s[j] == c[j - |a|];
      }
    }
    forall i | 0 <= i < |s|
      ensures RowSound(s[i], lo, hi)
    {
      if i < |a| {
        assert s[i] == a[i];
      } else {
        assert s[i] == c[i - |a|];
      }
    }
  }

  /** The cells and the temperatures leave 0x1391..0x1399 free. */
  lemma {:induction false} GapAfterCells(a: seq<Entry>, b: seq<Entry>)
    requires Sound(a, 0x1388, 0x1391) && Sound(b, 0x139a, 0x139e)
    ensures forall i :: 0 <= i < |a + b| ==> !(0x1391 <= (a + b)[i].register.address < 0x139a)
  {
    forall i | 0 <= i < |a + b|
      ensures !(0x1391 <= (a + b)[i].register.address < 0x139a)
    {
      if i < |a| {
        assert (a + b)[i] == a[i] && RowSound(a[i], 0x1388, 0x1391);
      } else {
        assert (a + b)[i] == b[i - |a|] && RowSound(b[i - |a|], 0x139a, 0x139e);
      }
    }
  }

  /** The cell temperatures break the order: the placeholders 0x1391..0x1399
      come after them. */
  lemma Interleave(a: seq<Entry>, b: seq<Entry>, c: seq<Entry>)
    requires Sound(a, 0x1388, 0x1391) && Sound(b, 0x139a, 0x139e) && Sound(c, 0x1391, 0x139a)
    ensures Sound(a + b + c, 0x1388, 0x139e)
  {
    Join(a, b, 0x1388, 0x1391, 0x139a, 0x139e);
    GapAfterCells(a, b);
    JoinIntoGap(a + b, c, 0x1388, 0x139e, 0x1391, 0x139a);
  }

  /** The whole table is sound: 99 rows at distinct addresses from 0x1388
      to 0x1467, each a one-, two-, four- or eight-word `uint`, except
      `current`, the only `sint`. */
  lemma RegistersSound()
    ensures |Registers()| == 99
    ensures Sound(Registers(), 0x1388, 0x1468)
  {
    CellsSound();
    CellTemperaturesSound();
    PackReadingsSound();
    VoltageLimitsSound();
    HeaterSound();
    SerialSound();
    IdentitySound();
    EchoSound();
    UnknownsSound(0x138d, 0x1391);
    UnknownsSound(0x1391, 0x139a);
    Join(Cells, Unknowns(0x138d, 0x1391), 0x1388, 0x138d, 0x138d, 0x1391);
    Interleave(Cells + Unknowns(0x138d, 0x1391), CellTemperatures, Unknowns(0x1391, 0x139a));
    var s := Cells + Unknowns(0x138d, 0x1391) + CellTemperatures + Unknowns(0x1391, 0x139a);
    UnknownsSound(0x139e, 0x13aa);
    Join(s, Unknowns(0x139e, 0x13aa), 0x1388, 0x139e, 0x139e, 0x13aa);
    s := s + Unknowns(0x139e, 0x13aa);
    UnknownsSound(0x13ab, 0x13b2);
    Join(s, Unknowns(0x13ab, 0x13b2), 0x1388, 0x13aa, 0x13ab, 0x13b2);
    s := s + Unknowns(0x13ab, 0x13b2);
    Join(s, PackReadings, 0x1388, 0x13b2, 0x13b2, 0x13b7);
    s := s + PackReadings;
    UnknownsSound(0x13b7, 0x13b9);
    Join(s, Unknowns(0x13b7, 0x13b9), 0x1388, 0x13b7, 0x13b7, 0x13b9);
    s := s + Unknowns(0x13b7, 0x13b9);
    Join(s, VoltageLimits, 0x1388, 0x13b9, 0x13b9, 0x13bb);
    s := s + VoltageLimits;
    UnknownsSound(0x13bb, 0x13bd);
    Join(s, Unknowns(0x13bb, 0x13bd), 0x1388, 0x13bb, 0x13bb, 0x13bd);
    s := s + Unknowns(0x13bb, 0x13bd);
    UnknownsSound(0x13ec, 0x13ef);
    Join(s, Unknowns(0x13ec, 0x13ef), 0x1388, 0x13bd, 0x13ec, 0x13ef);
    s := s + Unknowns(0x13ec, 0x13ef);
    Join(s, Heater, 0x1388, 0x13ef, 0x13ef, 0x13f0);
    s := s + Heater;
    UnknownsSound(0x13f0, 0x13f6);
    Join(s, Unknowns(0x13f0, 0x13f6), 0x1388, 0x13f0, 0x13f0, 0x13f6);
    s := s + Unknowns(0x13f0, 0x13f6);
    Join(s, Serial, 0x1388, 0x13f6, 0x13f6, 0x13f7);
    s := s + Serial;
    UnknownsSound(0x13fe, 0x1402);
    Join(s, Unknowns(0x13fe, 0x1402), 0x1388, 0x13f7, 0x13fe, 0x1402);
    s := s + Unknowns(0x13fe, 0x1402);
    Join(s, Identity, 0x1388, 0x1402, 0x1402, 0x140d);
    s := s + Identity;
    UnknownsSound(0x1410, 0x1416);
    Join(s, Unknowns(0x1410, 0x1416), 0x1388, 0x140d, 0x1410, 0x1416);
    s := s + Unknowns(0x1410, 0x1416);
    UnknownsSound(0x1450, 0x1467);
    Join(s, Unknowns(0x1450, 0x1467), 0x1388, 0x1416, 0x1450, 0x1467);
    s := s + Unknowns(0x1450, 0x1467);
    Join(s, Echo, 0x1388, 0x1467, 0x1467, 0x1468);
    s := s + Echo;
    assert s == Registers();
  }

  /** The dict's keys are distinct. */
  lemma RegistersNamesUnique()
    ensures NamesUnique(Registers())
  {
    RegistersSound();
  }

  /** Where rows sit in the table: the first placeholder is spelled
      `unknown_0x138d`; `celltemp_1` (0x139a) is listed before
      `unknown_0x1391`, so the table is not sorted by address; and the
      two-word `charge_capacity` at 0x13b6 also covers 0x13b7, the address of
      the placeholder that follows it. */
  lemma RegistersLayout()
    ensures Registers()[5].name == "unknown_0x138d"
    ensures Registers()[9].name == "celltemp_1" && Registers()[13].name == Unknown(0x1391).name
    ensures Registers()[9].register.address > Registers()[13].register.address
    ensures Registers()[44].name == "charge_capacity" && Registers()[45] == Unknown(0x13b7)
    ensures var r := Registers()[44].register;
      r.address < Registers()[45].register.address < r.address + r.length
  {
    FirstPlaceholder();
    CellTemperaturesEarly();
    ChargeCapacityOverlap();
  }

  lemma FirstPlaceholder()
    ensures Registers()[5] == Unknown(0x138d)
    ensures Unknown(0x138d).name == "unknown_0x138d"
  {
    assert AsciiCodec.HexDigits(0x138d) == [1, 3, 8, 0xd] by {
      assert AsciiCodec.HexDigits(0x138) == [1, 3, 8] by {
        assert AsciiCodec.HexDigits(0x13) == [1, 3];
      }
    }
    assert AsciiCodec.HexString([1, 3, 8, 0xd]) == "138d";
  }

  lemma CellTemperaturesEarly()
    ensures Registers()[9] == CellTemperatures[0]
    ensures Registers()[13] == Unknown(0x1391)
  {
  }

  lemma ChargeCapacityOverlap()
    ensures Registers()[44] == PackReadings[3]
    ensures Registers()[45] == Unknown(0x13b7)
  {
  }
}
