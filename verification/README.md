# Renogy smart LiFePO4 battery: register decoding engine in Dafny

This project models the decoding engine of `battery_smart_lifepo4.py`, a
script that reads the Modbus holding registers of a Renogy smart LiFePO4
battery over RS-485 and turns them into named values. The model covers five
parts:

- **The register table** (`REGISTERS`, module `Schema`). It has 99 rows in the
  dict's insertion order. Each row gives a name, a start address, a word
  count, a type string, a scaling rule and a unit.
- **Multi-word assembly** (module `Words`). The assembly loop of
  `read_register` uses Python's unbounded `|` and `<<`. It is proved equal to
  the positional big-endian value of the words. The `sint` correction is
  reproduced exactly: when the first word is `> 32768`, 32768 is subtracted.
- **`ascii`** (module `AsciiCodec`). This is `hex()`, then
  `.replace("0x", "")`, then `binascii.unhexlify`, then `.decode()`, then
  `.replace("\0", "")`. Only two of these steps can raise:
  `unhexlify` (an odd length or a non-hex digit) and `decode` (a byte it
  cannot decode). The two `replace` calls never fail, and `hex()` cannot fail
  on the integer `ascii` takes. Its type error on a value that is not an
  integer is modelled where the scan passes a read result to `ascii`
  (`Discovery.AsciiOf`).
- **Scaling dispatch** (module `Rules`). The string test for `'identical'`
  and the `rpartition(')')` rewrite that appends `, value)` are modelled as
  string functions. The `eval` of the rewritten call becomes a match on a
  closed `Rule` datatype.
- **Reads, batch read and discovery scan** (modules `Reader` and
  `Discovery`). These cover `read_register`, `read_register_or_false`,
  `read_registers` and `find_batteries`.
  - The Modbus instrument becomes a `Transport`: a pure function from
    (slave address, first register, register count) to the words the slave
    answered, or `None` when the request raised.
  - Every Python exception becomes an explicit `Raised(...)` value (module
    `Base`), so each `try`/`except` becomes a match.

The model follows the code as written. Four behaviours of the code are easy
to misread:

- `read_registers` drops a field whose read raises. It does not record an
  error entry for it.
- The signed test is `raw[0] > 32768`, and the correction subtracts 32768.
  This is not two's complement over the assembled width: `0xFFFF` gives 32767,
  and exactly 32768 is not negative.
- `ascii` does not pad an odd-length hex string. `binascii.unhexlify` then
  raises, for the input 0 as well.
- In `find_batteries`, a failed serial read gives `False`. `ascii(0, False)`
  then raises, so the address is reported as a bad response, not as a battery
  with an empty serial.

## Model

| member | source | states |
|---|---|---|
| Words.Shl | battery_smart_lifepo4.py:153 | defines Python's `<<` on a non-negative integer as multiplication by a power of two; `OrStep` and `OrFoldPrefix` use it for the loop's shift |
| Words.Or | battery_smart_lifepo4.py:153 | defines Python's `\|` bit by bit; its contract bounds it between the larger operand and the sum, and `OrDisjoint` shows it adds when the bits do not meet |
| Words.OrFold | battery_smart_lifepo4.py:150-153 | the assembly loop as written, OR-ing each shifted word into the accumulator; `OrFoldPrefix` and `Assemble` equate it with the positional value `WordsValue` |
| Words.OrDisjoint | battery_smart_lifepo4.py:153 | OR-ing a value below 2^k into a multiple of 2^k is addition: the bits do not meet |
| Words.OrFoldPrefix | battery_smart_lifepo4.py:150-153 | after i iterations of the assembly loop, the accumulator holds the first i words' positional value shifted left by 16·(length − i) bits |
| Words.WordsValueBound | battery_smart_lifepo4.py:150-153 | n 16-bit words stand for a number below 2^(16·n) |
| Words.Assemble | battery_smart_lifepo4.py:149-153 | the `uint` loop's result equals Σ words[i]·2^(16·(length−i−1)) and is below 2^(16·length), so OR accumulates like addition |
| Words.AssembleSigned | battery_smart_lifepo4.py:134-147 | a first word above 32768 gives the unsigned value minus 32768, otherwise the unsigned value; the result is never negative when length ≥ 1 |
| Words.TwoWordOrder | battery_smart_lifepo4.py:149-153 | the first word is the most significant: [1, 2] assembles to 65538 |
| Words.SignedExamples | battery_smart_lifepo4.py:136-147 | 40000 gives 7232; exactly 32768 is not negative; 0xFFFF gives 32767, not −1 |
| Text.RemoveAbsent | battery_smart_lifepo4.py:127 | `replace(pat, "")` leaves a string unchanged when one of the pattern's characters never occurs in it |
| Text.RemoveCharLeavesNone | battery_smart_lifepo4.py:127 | after `replace("\0", "")` no NUL character is left |
| Text.LastIndex | battery_smart_lifepo4.py:164 | the search behind `rpartition(c)`: none exactly when `c` does not occur, otherwise an index holding `c` with no `c` after it |
| AsciiCodec.Hex | battery_smart_lifepo4.py:127 | defines Python's `hex()`: `0x` or `-0x` followed by the minimal lowercase digits; `HexWithoutPrefix`, `HexDigitsAreNibbles` and `ParseHexDigits` relate those digits to the number and to its bytes |
| AsciiCodec.Unhexlify | battery_smart_lifepo4.py:127 | an odd-length string raises the odd-length error before any digit is read; a success yields one byte per two digits; the only errors are odd length and a non-hex digit |
| AsciiCodec.Decode | battery_smart_lifepo4.py:127 | decoding succeeds exactly on 7-bit bytes; the text has one character per byte, and each character's code equals its byte |
| AsciiCodec.DecodeEncode | battery_smart_lifepo4.py:127 | `decode` inverts `encode` on 7-bit text, and decoded bytes encode back to the same bytes |
| AsciiCodec.Ascii | battery_smart_lifepo4.py:127 | `ascii` raises only the odd-length, non-hex-digit or undecodable-byte error |
| AsciiCodec.HexWithoutPrefix | battery_smart_lifepo4.py:127 | `hex(n).replace("0x", "")` is exactly the minimal hex digits of a non-negative n |
| AsciiCodec.HexWithoutPrefixNegative | battery_smart_lifepo4.py:127 | for a negative input the `-` sign survives the `"0x"` removal |
| AsciiCodec.HexDigitsAreNibbles | battery_smart_lifepo4.py:127 | the minimal hex digits of n are the nibbles of its minimal big-endian bytes, less a leading zero nibble when the first byte is below 0x10 |
| AsciiCodec.HexDigitsEven | battery_smart_lifepo4.py:127 | the hex digit count is even exactly when the first big-endian byte is at least 0x10 |
| AsciiCodec.UnhexlifyNibbles | battery_smart_lifepo4.py:127 | `unhexlify` inverts writing bytes as hex digits |
| AsciiCodec.RemoveNulIsNonZero | battery_smart_lifepo4.py:127 | removing NUL characters from the decoded text keeps exactly the non-zero bytes, in order |
| AsciiCodec.ParseHexDigits | battery_smart_lifepo4.py:32 | reading back the hex digits that name a placeholder row (`unknown_0x…`) gives its address |
| AsciiCodec.AsciiOfNatural | battery_smart_lifepo4.py:126-127 | for n ≥ 0: odd-length error when the first big-endian byte is below 0x10; decode error on a byte ≥ 0x80; otherwise the big-endian bytes of n with the zero bytes removed |
| AsciiCodec.AsciiOfNegative | battery_smart_lifepo4.py:126-127 | a negative input always raises |
| AsciiCodec.AsciiSucceeds | battery_smart_lifepo4.py:126-127 | success needs a positive input with an even hex digit count; the output has no NUL; `ascii(0)` raises the odd-length error |
| AsciiCodec.BigEndianBytesValue | battery_smart_lifepo4.py:127 | the minimal big-endian bytes of the value of a byte string with a non-zero first byte are that byte string |
| AsciiCodec.PackedValue | battery_smart_lifepo4.py:151-153 | bytes packed two per word and assembled give the big-endian value of the bytes |
| AsciiCodec.AsciiOfBytes | battery_smart_lifepo4.py:127 | a 7-bit byte string whose first byte is ≥ 0x10 comes back from `ascii` with its zero bytes removed |
| AsciiCodec.AsciiRoundTrip | battery_smart_lifepo4.py:127 | text of 0x01..0x7F characters, first ≥ 0x10, NUL-padded to whole words, packed and assembled, is returned unchanged by `ascii` |
| Rules.Spelling | battery_smart_lifepo4.py:18-117 | the rule strings of the table (`identical`, `linear(…)`, `ascii(0)`) as written; never empty, and `SpellingIdentical` and `RewriteAppendsValue` show how the dispatch reads them |
| Rules.Rewrite | battery_smart_lifepo4.py:164-165 | the call ends in `, value)`; before it stands a prefix of the rule that stops at its last `)`; with no `)` the call is just `, value)` |
| Rules.SpellingIdentical | battery_smart_lifepo4.py:160 | the string test `== 'identical'` selects exactly the `Identical` rule |
| Rules.RewriteAppendsValue | battery_smart_lifepo4.py:163-165 | every other rule ends in `)`, so the rewrite keeps all its arguments and appends `value` as the last |
| Rules.RewriteExample | battery_smart_lifepo4.py:164-165 | `linear(0.1,0,2)` becomes `linear(0.1,0,2, value)`, and `identical` would become `, value)` |
| Rules.Scale | battery_smart_lifepo4.py:159-167 | `Identical` returns the raw value; `Linear` the linear call on it; `Ascii` the text `ascii` returns, or what `ascii` raised |
| Schema.UnknownsSound | battery_smart_lifepo4.py:32-40 | a run of placeholder rows from lo up to hi: distinct addresses in [lo, hi), each row a one-word `uint` whose name spells its address |
| Schema.UnknownName | battery_smart_lifepo4.py:32 | a placeholder is named `unknown_0x` followed by the hex digits that spell its address back |
| Schema.Registers | battery_smart_lifepo4.py:17-118 | the table, as 99 rows in the dict's insertion order; `RegistersSound`, `RegistersNamesUnique` and `RegistersLayout` state its properties |
| Schema.RegistersSound | battery_smart_lifepo4.py:17-118 | 99 rows at distinct addresses 0x1388..0x1467; each row is a `uint` or `sint` of 1, 2, 4 or 8 words, and only `current` is `sint` |
| Schema.RegistersNamesUnique | battery_smart_lifepo4.py:17-118 | the table's names are pairwise distinct |
| Schema.RegistersLayout | battery_smart_lifepo4.py:28-64 | `celltemp_1` (0x139a) comes before `unknown_0x1391`, so the table is not sorted by address; two-word `charge_capacity` at 0x13b6 covers 0x13b7, the next row's address |
| Reader.ReadRegister | battery_smart_lifepo4.py:129-167 | communication error iff the transport fails; index error iff the reply is short for the type (a `sint` always needs a first word); any other type gives `None`; otherwise the rule is applied to the positional value, less 32768 for a `sint` with first word above 32768; a read never yields `False` |
| Reader.ReadRegisterOrFalse | battery_smart_lifepo4.py:169-173 | `False` exactly when the read raised, otherwise what the read returned |
| Reader.KeyIndex | battery_smart_lifepo4.py:197 | where a key sits in the dict: absent iff the name is not a key, otherwise the first field carrying it |
| Reader.Lookup | battery_smart_lifepo4.py:197 | `d[name]` is absent iff `name` is not a key, and otherwise belongs to a field with that name |
| Reader.Put | battery_smart_lifepo4.py:197 | `values[reg] = v` appends a new key, keeps the place of an existing one, leaves other keys alone, keeps keys distinct, and afterwards `d[name]` is `v` |
| Reader.Survivors | battery_smart_lifepo4.py:195-199 | the indices of the rows whose read returns, strictly increasing, containing a row exactly when its read is `Ok` |
| Reader.Batch | battery_smart_lifepo4.py:192-200 | the fields `read_registers` keeps, one per row whose read returns, in table order; `BatchAtSurvivors`, `BatchLookup` and `BatchDistinct` state what it holds, and `ReadRegisters` equals it |
| Reader.BatchAtSurvivors | battery_smart_lifepo4.py:195-200 | the k-th field of the batch is the k-th surviving row's name and its value, so failing rows are omitted and order is kept |
| Reader.BatchStep | battery_smart_lifepo4.py:195-199 | with distinct names, one iteration of the loop extends the batch so far: a row whose read returns is assigned under its name, which is new to the dict, and a row whose read raises changes nothing |
| Reader.BatchDistinct | battery_smart_lifepo4.py:194-197 | with distinct table names, the batch's keys are distinct |
| Reader.BatchLookup | battery_smart_lifepo4.py:195-200 | with distinct names, a row is a key exactly when its read returned, and holds that value |
| Reader.LookupDistinct | battery_smart_lifepo4.py:197 | the lookup of the k-th field's key finds that field when no earlier field shares the key |
| Reader.ReadRegisters | battery_smart_lifepo4.py:192-200 | the loop as written yields distinct keys, each a table name; for a table with distinct names it equals the batch of surviving fields, so a fixed transport always gives the same dict |
| Reader.ReadTable | battery_smart_lifepo4.py:192-200 | for the register table, each name maps to its read's value exactly when the read returned, and there are at most 99 fields |
| Reader.NoMoreSurvivorsThanRows | battery_smart_lifepo4.py:195 | strictly increasing row indices below n number at most n |
| Reader.TableNeverNone | battery_smart_lifepo4.py:155-157 | no row of the table reaches the unsupported-type branch |
| Reader.ReadModelText | battery_smart_lifepo4.py:85 | eight words holding NUL-padded 7-bit text at 0x1402 read back as that text through the `model` row's `ascii(0)` rule |
| Reader.ReadCurrentExample | battery_smart_lifepo4.py:60 | a `current` word of 40000 is scaled from the raw value 7232 |
| Discovery.AsciiOf | battery_smart_lifepo4.py:186 | `ascii(0, False)` raises the odd-length error, since `hex(False)` is `0x0`; an integer goes to `ascii`; anything else is a type error |
| Discovery.ProbeRead | battery_smart_lifepo4.py:183-185 | a probe read gives the eight words' value, or `False` when the reply is missing or short |
| Discovery.Probe | battery_smart_lifepo4.py:180-190 | "unknown" iff the model number is missing or 0 (both equal `False`); a battery iff the model number is non-zero, the serial was read, and both decode; otherwise a bad response, including when the serial read failed; the reported texts are what `ascii` returned |
| Discovery.ProbeOddModel | battery_smart_lifepo4.py:184-190 | a non-zero model number whose first byte is below 0x10 is a bad response |
| Discovery.FindBatteries | battery_smart_lifepo4.py:178 | visits slave addresses 0x00..0xF7 once each, in ascending order, probing each |
| Discovery.ProbeFindsBattery | battery_smart_lifepo4.py:183-186 | a slave answering both probes with NUL-padded 7-bit text is reported with exactly those texts |
| Discovery.OneBatteryOnTheBus | battery_smart_lifepo4.py:178-190 | if only slave 0x30 answers (model `RBT100`), the scan reports that battery at 0x30 and "unknown" everywhere else |

## Left out

- `linear` (battery_smart_lifepo4.py:120-124): the float product, the offset and Python's `round` are not modelled. A linear-scaled read yields `LinearValue(factor, offset, precision, raw)`, a symbolic stand-in for the call.
- `eval` (battery_smart_lifepo4.py:166): no dynamic execution. A rule's spelling and its rewrite are modelled; evaluating the rewritten call is a match on the `Rule` datatype.
- The minimalmodbus instrument, serial port, timeouts and baud rate (battery_smart_lifepo4.py:130, 177, 181): they are replaced by the `Transport` function. It receives the slave address that `instrument.address = address` selects. Every way the library can fail becomes one `CommunicationError`.
- AsciiCodec.Decode: bytes from 0x80 up raise `UndecodedByte`. UTF-8 decoding of multi-byte sequences is not modelled, so a valid UTF-8 reply is reported as an error.
- Discovery.EqualsFalse: Python's `== False` is modelled only for integers and `False`, the only values a probe can return.
- Reader.ReadRegisters: equality with the batch is stated only for a table with distinct names. A Python dict cannot hold two equal keys, so this is every table the source can build.
- Text.Remove: its own contract only bounds the length. What `replace(pat, "")` does is stated by `Text.RemoveAbsent`, `Text.RemoveCharLeavesNone` and `AsciiCodec.HexWithoutPrefix`.
- The probe dicts in `find_batteries` carry no name and no unit. The model gives them an empty unit, which no computation reads.
- The printing in `read_register`, `read_registers` and `find_batteries`, and the output formats `dump_table`, `dump_json` and `dump_jsonl` (battery_smart_lifepo4.py:156, 179, 186-190, 199, 202-230): these are I/O only. The scan's printed classification is kept as an `Outcome`.
- Argument parsing, port discovery and the polling/sleep loop (battery_smart_lifepo4.py:233-268): they are outside the decoding engine.
- Exceptions that are not `Exception` subclasses (such as a keyboard interrupt): `read_registers` would not catch them, while the bare `except` of `read_register_or_false` would. The model does not distinguish them.
