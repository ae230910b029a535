/** The value placeholders `:field_op` and `:field_op_i` of the filter transform. */
module PlaceholderKeys {
  import opened Results

  function Digit(d: nat): (c: char)
    requires d < 10
    ensures '0' <= c <= '9' && c as int == '0' as int + d
  {
    ['0', '1', '2', '3', '4', '5', '6', '7', '8', '9'][d]
  }

  function Decimal(n: nat): (r: string)
    ensures r != [] && '0' <= r[0] <= '9'
    ensures forall i :: 0 <= i < |r| ==> '0' <= r[i] <= '9'
  {
    if n < 10 then [Digit(n)] else Decimal(n / 10) + [Digit(n % 10)]
  }

  function ValueKey(field: string, op: string, index: Option<nat>): string {
    ":" + field + "_" + op + (if index.None? then "" else "_" + Decimal(index.value))
  }

  /** What every operator name satisfies: no underscore, and it does not look like a number. */
  predicate OperatorName(op: string) {
    && op != []
    && !('0' <= op[0] <= '9')
    && forall i :: 0 <= i < |op| ==> op[i] != '_'
  }

  lemma {:induction false} DecimalInjective(m: nat, n: nat)
    requires Decimal(m) == Decimal(n)
    ensures m == n
  {
    var r := Decimal(m);
    assert r[|r| - 1] as int - '0' as int == m % 10 == n % 10;
    if m >= 10 && n >= 10 {
      assert r[..|r| - 1] == Decimal(m / 10) == Decimal(n / 10);
      DecimalInjective(m / 10, n / 10);
    }
  }

  /** A last segment without underscores is determined by the whole string. */
  lemma LastSegment(a: string, s: string, b: string, t: string)
    requires a + "_" + s == b + "_" + t
    requires forall i :: 0 <= i < |s| ==> s[i] != '_'
    requires forall i :: 0 <= i < |t| ==> t[i] != '_'
    ensures a == b && s == t
  {
    var x := a + "_" + s;
    assert x[|a|] == '_' && x[|b|] == '_';
    forall k | |a| < k < |x| ensures x[k] != '_' {
      assert x[k] == s[k - |a| - 1];
    }
    forall k | |b| < k < |x| ensures x[k] != '_' {
      assert x[k] == t[k - |b| - 1];
    }
    assert x[..|a|] == a && x[..|b|] == b;
    assert x[|a| + 1..] == s && x[|b| + 1..] == t;
  }

  /** Two placeholders coincide only when field, operator and position all do. */
  lemma KeysInjective(f: string, op: string, i: Option<nat>, g: string, op': string, j: Option<nat>)
    requires OperatorName(op) && OperatorName(op')
    requires ValueKey(f, op, i) == ValueKey(g, op', j)
    ensures f == g && op == op' && i == j
  {
    match (i, j)
    case (None, None) =>
      assert ValueKey(f, op, i) == ":" + f + "_" + op && ValueKey(g, op', j) == ":" + g + "_" + op';
      LastSegment(":" + f, op, ":" + g, op');
      DropColon(f, g);
    case (Some(m), Some(n)) =>
      assert ValueKey(f, op, i) == ":" + f + "_" + op + "_" + Decimal(m);
      assert ValueKey(g, op', j) == ":" + g + "_" + op' + "_" + Decimal(n);
      LastSegment(":" + f + "_" + op, Decimal(m), ":" + g + "_" + op', Decimal(n));
      DecimalInjective(m, n);
      LastSegment(":" + f, op, ":" + g, op');
      DropColon(f, g);
    case (None, Some(n)) =>
      assert ValueKey(f, op, i) == ":" + f + "_" + op;
      assert ValueKey(g, op', j) == ":" + g + "_" + op' + "_" + Decimal(n);
      LastSegment(":" + f, op, ":" + g + "_" + op', Decimal(n));
    case (Some(m), None) =>
      assert ValueKey(g, op', j) == ":" + g + "_" + op';
      assert ValueKey(f, op, i) == ":" + f + "_" + op + "_" + Decimal(m);
      LastSegment(":" + f + "_" + op, Decimal(m), ":" + g, op');
  }

  lemma DropColon(f: string, g: string)
    requires ":" + f == ":" + g
    ensures f == g
  {
    assert (":" + f)[1..] == f && (":" + g)[1..] == g;
  }
}
