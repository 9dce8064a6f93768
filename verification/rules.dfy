/** Scaling rules and their dispatch (battery_smart_lifepo4.py:159-167).

  In the source a rule is a string: `'identical'` returns the raw value;
  any other string is rewritten by cutting it at its last `)` and appending
  `, value)`, and the resulting call is `eval`'d. The model keeps the rules as
  a closed datatype whose `Spelling` is the string of the register table, models
  the rewrite as a string function, and replaces `eval` by a match.
 */
module Rules {
  import opened Base
  import opened Text
  import AsciiCodec

  /** A decimal literal of the table: `units / 10^places` (0.1 is
      `Decimal(1, 1)`). */
  datatype Decimal = Decimal(units: nat, places: nat)

  datatype Rule =
    | Identical                                              // 'identical'
    | Linear(factor: Decimal, offset: int, precision: int)   // 'linear(factor,offset,precision)'
    | Ascii(pad: int)                                        // 'ascii(pad)', the argument is ignored

  /** What a register read returns, as Python values. `LinearValue` stands for
      the float `linear(factor, offset, precision, input)` computes: the
      floating-point arithmetic and rounding are not modelled. `FalseValue`
      is only produced by `read_register_or_false`. */
  datatype Value =
    | NoneValue
    | FalseValue
    | IntValue(i: int)
    | TextValue(text: string)
    | LinearValue(factor: Decimal, offset: int, precision: int, input: int)

  function ZeroDigits(k: nat): (s: string)
    ensures |s| == k
  {
    seq(k, _ => '0')
  }

  /** A decimal as written in the table: `1`, `0.1`, `0.001`. */
  function DecimalText(d: Decimal): string
  {
    var digits := NatText(d.units);
    if d.places == 0 then digits
    else
      var padded := if |digits| <= d.places then ZeroDigits(d.places + 1 - |digits|) + digits else digits;
      padded[..|padded| - d.places] + "." + padded[|padded| - d.places..]
  }

  /** The rule as the register table spells it. */
  function Spelling(rule: Rule): (s: string)
    ensures 1 <= |s|
  {
    match rule
    case Identical => "identical"
    case Linear(f, o, p) => "linear(" + DecimalText(f) + "," + IntText(o) + "," + IntText(p) + ")"
    case Ascii(pad) => "ascii(" + IntText(pad) + ")"
  }

  /** The rewrite of a rule string into a call: the part of the string
      before its last `)` (all of `rpartition`'s head, which is empty when
      there is no `)`), followed by `, value)`. */
  function Rewrite(s: string): (call: string)
    ensures 8 <= |call| && call[|call| - 8..] == ", value)"
    ensures var head := call[..|call| - 8]; |head| <= |s| && head == s[..|head|]
    ensures var head := call[..|call| - 8];
      (exists i :: 0 <= i < |s| && s[i] == ')') ==>
        |head| < |s| && s[|head|] == ')' && forall j :: |head| < j < |s| ==> s[j] != ')'
    ensures (forall i :: 0 <= i < |s| ==> s[i] != ')') ==> call == ", value)"
  {
    match LastIndex(s, ')')
    case None => ", value)"
    case Some(k) => s[..k] + ", value)"
  }

  /** Comparing the rule's spelling with `identical` selects exactly the
      `Identical` rule. */
  lemma SpellingIdentical(rule: Rule)
    ensures Spelling(rule) == "identical" <==> rule.Identical?
  {
    if !rule.Identical? {
      assert Spelling(rule)[0] != 'i';
    }
  }

  /** Every other rule ends in `)`, so the rewrite keeps all of its arguments
      and passes the raw value as one more, last argument. */
  lemma RewriteAppendsValue(rule: Rule)
    requires !rule.Identical?
    ensures var s := Spelling(rule);
      s[|s| - 1] == ')' && Rewrite(s) == s[..|s| - 1] + ", value)"
  {
  }

  lemma DecimalExamples()
    ensures DecimalText(Decimal(1, 0)) == "1"
    ensures DecimalText(Decimal(1, 1)) == "0.1"
    ensures DecimalText(Decimal(1, 3)) == "0.001"
  {
    assert NatText(1) == "1";
    var p1 := ZeroDigits(1) + "1";
    assert p1 == "01";
    assert p1[..1] == "0" && p1[1..] == "1";
    var p3 := ZeroDigits(3) + "1";
    assert p3 == "0001";
    assert p3[..1] == "0" && p3[1..] == "001";
  }

  lemma RewriteExample()
    ensures Spelling(Linear(Decimal(1, 1), 0, 2)) == "linear(0.1,0,2)"
    ensures Rewrite("linear(0.1,0,2)") == "linear(0.1,0,2, value)"
    ensures Rewrite("identical") == ", value)"
  {
    DecimalExamples();
    assert IntText(0) == "0" && IntText(2) == "2";
    var s := "linear(0.1,0,2)";
    assert LastIndex(s, ')') == Some(|s| - 1);
    assert s[..|s| - 1] + ", value)" == "linear(0.1,0,2, value)";
    assert forall i :: 0 <= i < |"identical"| ==> "identical"[i] != ')';
  }

  /** The scaling step: `'identical'` returns the raw value unchanged; any
      other rule is the call its rewrite spells, with `value` last. */
  function Scale(rule: Rule, value: int): (r: Result<Value>)
    ensures rule.Identical? ==> r == Ok(IntValue(value))
    ensures rule.Linear? ==> r == Ok(LinearValue(rule.factor, rule.offset, rule.precision, value))
    ensures rule.Ascii? ==>
      match AsciiCodec.Ascii(value)
      case Ok(text) => r == Ok(TextValue(text))
      case Raised(e) => r == Raised(e)
  {
    SpellingIdentical(rule);
    if Spelling(rule) == "identical" then Ok(IntValue(value))
    else
      match rule
      case Identical => Ok(IntValue(value))
      case Linear(f, o, p) => Ok(LinearValue(f, o, p, value))
      case Ascii(_) =>
        match AsciiCodec.Ascii(value)
        case Ok(text) => Ok(TextValue(text))
        case Raised(e) => Raised(e)
  }
}
