/**
  IAM condition blocks (`ministack/core/iam_evaluator.py`): an operator name is taken apart, the
  context value is compared with every expected value, and set operators quantify over the
  members of a multi-valued key. Reading numbers, dates and addresses is left to the caller.
 */
module IamConditions {
  import opened Results
  import opened PythonText
  import opened IamGlob

  // ---------------------------------------------------------------- operators

  datatype Comparison = Eq | Neq | Lt | Lte | Gt | Gte

  datatype Base =
    | StringEquals | StringNotEquals
    | StringEqualsIgnoreCase | StringNotEqualsIgnoreCase
    | StringLike | StringNotLike
    | Numeric(cmp: Comparison) | Date(cmp: Comparison)
    | Bool
    | IpAddress | NotIpAddress
    | ArnEquals | ArnLike | ArnNotEquals | ArnNotLike
    | BinaryEquals

  datatype Quantifier = Plain | ForAll | ForAny

  datatype Operator = Operator(base: Base, quantifier: Quantifier, ifExists: bool)

  datatype Parsed = NullCheck | Known(op: Operator) | Unsupported

  function ComparisonName(cmp: Comparison): string {
    match cmp
    case Eq => "equals"
    case Neq => "notequals"
    case Lt => "lessthan"
    case Lte => "lessthanequals"
    case Gt => "greaterthan"
    case Gte => "greaterthanequals"
  }

  const NUMERIC := "numeric"
  const DATE := "date"

  /** The keys of the dispatch table. */
  function BaseName(base: Base): string {
    match base
    case StringEquals => "stringequals"
    case StringNotEquals => "stringnotequals"
    case StringEqualsIgnoreCase => "stringequalsignorecase"
    case StringNotEqualsIgnoreCase => "stringnotequalsignorecase"
    case StringLike => "stringlike"
    case StringNotLike => "stringnotlike"
    case Numeric(cmp) => NUMERIC + ComparisonName(cmp)
    case Date(cmp) => DATE + ComparisonName(cmp)
    case Bool => "bool"
    case IpAddress => "ipaddress"
    case NotIpAddress => "notipaddress"
    case ArnEquals => "arnequals"
    case ArnLike => "arnlike"
    case ArnNotEquals => "arnnotequals"
    case ArnNotLike => "arnnotlike"
    case BinaryEquals => "binaryequals"
  }

  function QuantifierName(q: Quantifier): string {
    match q
    case Plain => ""
    case ForAll => "forallvalues:"
    case ForAny => "foranyvalue:"
  }

  predicate NeedsReading(base: Base) {
    base.Numeric? || base.Date?
  }

  const IF_EXISTS := "ifexists"

  function OperatorName(op: Operator): string {
    QuantifierName(op.quantifier) + BaseName(op.base) + (if op.ifExists then IF_EXISTS else "")
  }

  function LookUpComparison(name: string): Option<Comparison> {
    if name == ComparisonName(Eq) then Some(Eq)
    else if name == ComparisonName(Neq) then Some(Neq)
    else if name == ComparisonName(Lt) then Some(Lt)
    else if name == ComparisonName(Lte) then Some(Lte)
    else if name == ComparisonName(Gt) then Some(Gt)
    else if name == ComparisonName(Gte) then Some(Gte)
    else None
  }

  /** The dispatch table, short of its numeric and date rows. */
  function LookUpText(name: string): Option<Base> {
    if name == BaseName(StringEquals) then Some(StringEquals)
    else if name == BaseName(StringNotEquals) then Some(StringNotEquals)
    else if name == BaseName(StringEqualsIgnoreCase) then Some(StringEqualsIgnoreCase)
    else if name == BaseName(StringNotEqualsIgnoreCase) then Some(StringNotEqualsIgnoreCase)
    else if name == BaseName(StringLike) then Some(StringLike)
    else if name == BaseName(StringNotLike) then Some(StringNotLike)
    else if name == BaseName(Bool) then Some(Bool)
    else if name == BaseName(IpAddress) then Some(IpAddress)
    else if name == BaseName(NotIpAddress) then Some(NotIpAddress)
    else if name == BaseName(ArnEquals) then Some(ArnEquals)
    else if name == BaseName(ArnLike) then Some(ArnLike)
    else if name == BaseName(ArnNotEquals) then Some(ArnNotEquals)
    else if name == BaseName(ArnNotLike) then Some(ArnNotLike)
    else if name == BaseName(BinaryEquals) then Some(BinaryEquals)
    else None
  }

  /** The dispatch table. */
  function LookUp(name: string): Option<Base> {
    var text := LookUpText(name);
    if text.Some? then text
    else if NUMERIC <= name then
      var cmp := LookUpComparison(name[|NUMERIC|..]);
      if cmp.Some? then Some(Numeric(cmp.value)) else None
    else if DATE <= name then
      var cmp := LookUpComparison(name[|DATE|..]);
      if cmp.Some? then Some(Date(cmp.value)) else None
    else None
  }

  function StripIfExists(name: string): (string, bool) {
    if EndsWith(name, IF_EXISTS) then (name[..|name| - |IF_EXISTS|], true) else (name, false)
  }

  function StripQuantifier(name: string): (string, Quantifier) {
    if QuantifierName(ForAll) <= name then (name[|QuantifierName(ForAll)|..], ForAll)
    else if QuantifierName(ForAny) <= name then (name[|QuantifierName(ForAny)|..], ForAny)
    else (name, Plain)
  }

  /** The name of an operator is lowered, loses its suffix, then its prefix. */
  function ParseOperator(text: string): Parsed {
    var name := Lower(text);
    if name == "null" then NullCheck
    else
      var (stem, ifExists) := StripIfExists(name);
      var (baseName, quantifier) := StripQuantifier(stem);
      var base := LookUp(baseName);
      if base.None? then Unsupported else Known(Operator(base.value, quantifier, ifExists))
  }

  /** No operator's name can be taken for the suffix or for `null`, or carries the colon of a prefix. */
  predicate Unmistakable(n: string) {
    && 4 <= |n|
    && (n[|n| - 2] == 't' ==> n[|n| - 1] != 's')
    && (n[|n| - 2] == 'l' ==> n[|n| - 1] != 'l')
    && forall c <- n :: c != ':'
  }

  lemma ComparisonShape(front: string, cmp: Comparison)
    requires forall c <- front :: c != ':'
    ensures Unmistakable(front + ComparisonName(cmp))
  {
    var n := ComparisonName(cmp);
    assert Unmistakable(n);
    assert (front + n)[|front + n| - 1] == n[|n| - 1] && (front + n)[|front + n| - 2] == n[|n| - 2];
  }

  lemma NameShape(base: Base)
    ensures Unmistakable(BaseName(base))
  {
    match base
    case Numeric(cmp) => ComparisonShape(NUMERIC, cmp);
    case Date(cmp) => ComparisonShape(DATE, cmp);
    case _ =>
  }

  /** Length and first letter tell the names of this part of the table apart. */
  function Sketch(base: Base): (nat, char)
    requires !NeedsReading(base)
  {
    match base
    case StringEquals => (12, 's')
    case StringNotEquals => (15, 's')
    case StringEqualsIgnoreCase => (22, 's')
    case StringNotEqualsIgnoreCase => (25, 's')
    case StringLike => (10, 's')
    case StringNotLike => (13, 's')
    case Bool => (4, 'b')
    case IpAddress => (9, 'i')
    case NotIpAddress => (12, 'n')
    case ArnEquals => (9, 'a')
    case ArnLike => (7, 'a')
    case ArnNotEquals => (12, 'a')
    case ArnNotLike => (10, 'a')
    case BinaryEquals => (12, 'b')
  }

  lemma SketchName(base: Base)
    requires !NeedsReading(base)
    ensures |BaseName(base)| == Sketch(base).0 && BaseName(base)[0] == Sketch(base).1 && BaseName(base)[1] != 'u'
  {
  }

  lemma LookUpTextText(name: string)
    requires LookUpText(name).Some?
    ensures name == BaseName(LookUpText(name).value) && !NeedsReading(LookUpText(name).value)
  {
    hide BaseName;
  }

  lemma LookUpTextName(base: Base)
    requires !NeedsReading(base)
    ensures LookUpText(BaseName(base)) == Some(base)
  {
    hide BaseName;
    assert LookUpText(BaseName(base)).Some?;
    var found := LookUpText(BaseName(base)).value;
    LookUpTextText(BaseName(base));
    SketchName(base);
    SketchName(found);
  }

  lemma NotText(name: string)
    requires 2 <= |name| && (name[0] == 'd' || name[1] == 'u')
    ensures LookUpText(name) == None
  {
    hide LookUpText;
    hide BaseName;
    if LookUpText(name).Some? {
      LookUpTextText(name);
      SketchName(LookUpText(name).value);
    }
  }

  lemma LookUpComparisonName(cmp: Comparison)
    ensures LookUpComparison(ComparisonName(cmp)) == Some(cmp)
  {
  }

  lemma LookUpName(base: Base)
    ensures LookUp(BaseName(base)) == Some(base)
  {
    hide LookUpText;
    hide LookUpComparison;
    hide ComparisonName;
    match base
    case Numeric(cmp) =>
      var name := NUMERIC + ComparisonName(cmp);
      assert name[|NUMERIC|..] == ComparisonName(cmp);
      assert name[1] == NUMERIC[1];
      NotText(name);
      LookUpComparisonName(cmp);
    case Date(cmp) =>
      var name := DATE + ComparisonName(cmp);
      assert name[|DATE|..] == ComparisonName(cmp);
      assert name[0] == DATE[0] != NUMERIC[0];
      NotText(name);
      LookUpComparisonName(cmp);
    case _ =>
      LookUpTextName(base);
  }

  lemma StripIfExistsName(stem: string, ifExists: bool)
    requires 2 <= |stem| && (stem[|stem| - 2] == 't' ==> stem[|stem| - 1] != 's')
    ensures StripIfExists(stem + (if ifExists then IF_EXISTS else "")) == (stem, ifExists)
  {
    if ifExists {
      var name := stem + IF_EXISTS;
      assert name[|name| - 8..] == IF_EXISTS && name[..|name| - 8] == stem;
    } else {
      assert stem + "" == stem;
      if 8 <= |stem| {
        var last := stem[|stem| - 8..];
        assert last[6] == stem[|stem| - 2] && last[7] == stem[|stem| - 1];
        assert IF_EXISTS[6] == 't' && IF_EXISTS[7] == 's';
        assert last != IF_EXISTS;
      }
    }
  }

  lemma NoColonNoPrefix(prefix: string, name: string, i: nat)
    requires i < |prefix| && prefix[i] == ':'
    requires forall c <- name :: c != ':'
    ensures !(prefix <= name)
  {
    if |prefix| <= |name| {
      assert name[i] in name;
      assert prefix[i] != name[i];
    }
  }

  lemma StripQuantifierName(q: Quantifier, baseName: string)
    requires forall c <- baseName :: c != ':'
    ensures StripQuantifier(QuantifierName(q) + baseName) == (baseName, q)
  {
    var name := QuantifierName(q) + baseName;
    assert name[|QuantifierName(q)|..] == baseName;
    match q
    case Plain =>
      assert name == baseName;
      NoColonNoPrefix(QuantifierName(ForAll), name, 12);
      NoColonNoPrefix(QuantifierName(ForAny), name, 11);
    case ForAll => assert QuantifierName(ForAll) <= name;
    case ForAny => assert QuantifierName(ForAll)[4] == 'l' && name[4] == 'n';
  }

  /** However an operator's name is cased, reading it gives that operator back. */
  lemma NamesParse(op: Operator, text: string)
    requires Lower(text) == OperatorName(op)
    ensures ParseOperator(text) == Known(op)
  {
    hide LookUp;
    hide BaseName;
    hide StripIfExists;
    hide StripQuantifier;
    var base := BaseName(op.base);
    NameShape(op.base);
    LookUpName(op.base);
    var stem := QuantifierName(op.quantifier) + base;
    assert stem[|stem| - 1] == base[|base| - 1] && stem[|stem| - 2] == base[|base| - 2];
    StripQuantifierName(op.quantifier, base);
    StripIfExistsName(stem, op.ifExists);
    var name := Lower(text);
    assert name == stem + (if op.ifExists then IF_EXISTS else "");
    assert name[|name| - 1] != 'l' || name[|name| - 2] != 'l';
  }

  // ---------------------------------------------------------------- comparing two values

  datatype Float = NotANumber | NegInfinity | Finite(value: real) | PosInfinity

  predicate FloatLess(a: Float, b: Float) {
    match (a, b)
    case (NotANumber, _) => false
    case (_, NotANumber) => false
    case (Finite(x), Finite(y)) => x < y
    case (NegInfinity, _) => b != NegInfinity
    case (PosInfinity, _) => false
    case (Finite(_), _) => b == PosInfinity
  }

  predicate FloatEqual(a: Float, b: Float) {
    a == b && a != NotANumber
  }

  /** What `float`, the two date parsers and `ipaddress` make of a text. */
  datatype Readers = Readers(number: string -> Option<Float>, date: string -> Option<int>, inNetwork: (string, string) -> bool)

  predicate CompareNumbers(r: Readers, cmp: Comparison, actual: string, expected: string) {
    var a, e := r.number(actual), r.number(expected);
    if a.None? || e.None? then false
    else
      match cmp
      case Eq => FloatEqual(a.value, e.value)
      case Neq => !FloatEqual(a.value, e.value)
      case Lt => FloatLess(a.value, e.value)
      case Lte => FloatLess(a.value, e.value) || FloatEqual(a.value, e.value)
      case Gt => FloatLess(e.value, a.value)
      case Gte => FloatLess(e.value, a.value) || FloatEqual(a.value, e.value)
  }

  function ReadDate(r: Readers, text: string): Option<int> {
    if text == "" then None else r.date(text)
  }

  predicate CompareDates(r: Readers, cmp: Comparison, actual: string, expected: string) {
    var a, e := ReadDate(r, actual), ReadDate(r, expected);
    if a.None? || e.None? then false
    else
      match cmp
      case Eq => a.value == e.value
      case Neq => a.value != e.value
      case Lt => a.value < e.value
      case Lte => a.value <= e.value
      case Gt => a.value > e.value
      case Gte => a.value >= e.value
  }

  predicate Compare(r: Readers, base: Base, actual: string, expected: string) {
    match base
    case StringEquals => actual == expected
    case StringNotEquals => actual != expected
    case StringEqualsIgnoreCase => Lower(actual) == Lower(expected)
    case StringNotEqualsIgnoreCase => Lower(actual) != Lower(expected)
    case StringLike => Fnmatch(actual, expected, false)
    case StringNotLike => !Fnmatch(actual, expected, false)
    case Numeric(cmp) => CompareNumbers(r, cmp, actual, expected)
    case Date(cmp) => CompareDates(r, cmp, actual, expected)
    case Bool => Lower(actual) == Lower(expected)
    case IpAddress => r.inNetwork(actual, expected)
    case NotIpAddress => !r.inNetwork(actual, expected)
    case ArnEquals => Fnmatch(actual, expected, false)
    case ArnLike => Fnmatch(actual, expected, false)
    case ArnNotEquals => !Fnmatch(actual, expected, false)
    case ArnNotLike => !Fnmatch(actual, expected, false)
    case BinaryEquals => actual == expected
  }

  // ---------------------------------------------------------------- one condition

  /** A context value: missing, single, or a list together with the text Python prints for it. */
  datatype Value = Absent | One(text: string) | Many(items: seq<string>, text: string)

  predicate Negated(base: Base) {
    base in {StringNotEquals, StringNotEqualsIgnoreCase, StringNotLike, Numeric(Neq), Date(Neq), ArnNotEquals, ArnNotLike, NotIpAddress}
  }

  predicate MatchesExpected(r: Readers, base: Base, value: string, expected: seq<string>) {
    if Negated(base) then forall e <- expected :: Compare(r, base, value, e)
    else exists e <- expected :: Compare(r, base, value, e)
  }

  function Items(value: Value): seq<string>
    requires !value.Absent?
  {
    if value.Many? then value.items else [value.text]
  }

  predicate EvaluateKnown(r: Readers, op: Operator, actual: Value, expected: seq<string>) {
    if actual.Absent? then
      op.ifExists || op.quantifier == ForAll || (op.quantifier != ForAny && Negated(op.base))
    else
      match op.quantifier
      case ForAll => forall v <- Items(actual) :: MatchesExpected(r, op.base, v, expected)
      case ForAny => exists v <- Items(actual) :: MatchesExpected(r, op.base, v, expected)
      case Plain => MatchesExpected(r, op.base, actual.text, expected)
  }

  /** `_evaluate_single_condition` */
  predicate Evaluate(r: Readers, operator: string, actual: Value, expected: seq<string>) {
    match ParseOperator(operator)
    case NullCheck => actual.Absent? == (expected == [] || Lower(expected[0]) == "true")
    case Unsupported => false
    case Known(op) => EvaluateKnown(r, op, actual, expected)
  }

  // ---------------------------------------------------------------- a whole block

  /** The policy's side of a key: a text, a list of texts, or anything else as printed. */
  datatype Expected = Text(text: string) | List(items: seq<string>) | Other(text: string)

  function ExpectedList(e: Expected): seq<string> {
    if e.List? then e.items else [e.text]
  }

  datatype Block = NotADict | Keys(keys: seq<(string, Expected)>)

  type Conditions = seq<(string, Block)>

  const REQUEST_TAG := "aws:requesttag/"

  /** The operator's name without suffix and prefix, as the request-tag branch strips it. */
  function BareName(operator: string): string {
    var stem := StripIfExists(Lower(operator)).0;
    if QuantifierName(ForAny) <= stem then stem[|QuantifierName(ForAny)|..]
    else if QuantifierName(ForAll) <= stem then stem[|QuantifierName(ForAll)|..]
    else stem
  }

  predicate NegatedName(name: string) {
    name in {"stringnotequals", "stringnotequalsignorecase", "stringnotlike", "numericnotequals", "datenotequals",
             "arnnotequals", "arnnotlike", "notipaddress"}
  }

  /** One key of one block: case variants of a request tag are judged one by one. */
  predicate KeyMet(r: Readers, lookup: string -> Value, operator: string, key: string, expected: Expected) {
    var actual := lookup(key);
    if REQUEST_TAG <= Lower(key) && actual.Many? then
      if NegatedName(BareName(operator)) then
        forall v <- actual.items :: Evaluate(r, operator, One(v), ExpectedList(expected))
      else
        exists v <- actual.items :: Evaluate(r, operator, One(v), ExpectedList(expected))
    else
      Evaluate(r, operator, actual, ExpectedList(expected))
  }

  predicate BlockMet(r: Readers, lookup: string -> Value, operator: string, block: Block) {
    block.Keys? ==> forall k <- block.keys :: KeyMet(r, lookup, operator, k.0, k.1)
  }

  predicate Met(r: Readers, lookup: string -> Value, conditions: Conditions) {
    forall c <- conditions :: BlockMet(r, lookup, c.0, c.1)
  }

  /** `_conditions_met`: stops at the first key that fails. */
  method ConditionsMet(r: Readers, lookup: string -> Value, conditions: Conditions) returns (met: bool)
    ensures met == Met(r, lookup, conditions)
  {
    hide Evaluate;
    hide BareName;
    hide NegatedName;
    hide Lower;
    for i := 0 to |conditions|
      invariant forall c <- conditions[..i] :: BlockMet(r, lookup, c.0, c.1)
    {
      var (operator, block) := conditions[i];
      if block.NotADict? {
        continue;
      }
      for j := 0 to |block.keys|
        invariant forall k <- block.keys[..j] :: KeyMet(r, lookup, operator, k.0, k.1)
      {
        var (key, expected) := block.keys[j];
        assert block.keys[j] in block.keys;
        var actual := lookup(key);
        if REQUEST_TAG <= Lower(key) && actual.Many? {
          var combined: bool;
          if NegatedName(BareName(operator)) {
            combined := forall v <- actual.items :: Evaluate(r, operator, One(v), ExpectedList(expected));
          } else {
            combined := exists v <- actual.items :: Evaluate(r, operator, One(v), ExpectedList(expected));
          }
          if !combined {
            assert !KeyMet(r, lookup, operator, key, expected);
            assert !BlockMet(r, lookup, conditions[i].0, conditions[i].1);
            return false;
          }
        } else if !Evaluate(r, operator, actual, ExpectedList(expected)) {
          assert !KeyMet(r, lookup, operator, key, expected);
          assert !BlockMet(r, lookup, conditions[i].0, conditions[i].1);
          return false;
        }
      }
      assert block.keys[..|block.keys|] == block.keys;
    }
    assert conditions[..|conditions|] == conditions;
    return true;
  }

  // ---------------------------------------------------------------- negation

  /** The negated operator that stands beside an affirmative one. */
  function Opposite(base: Base): Option<Base> {
    match base
    case StringEquals => Some(StringNotEquals)
    case StringEqualsIgnoreCase => Some(StringNotEqualsIgnoreCase)
    case StringLike => Some(StringNotLike)
    case Numeric(Eq) => Some(Numeric(Neq))
    case Date(Eq) => Some(Date(Neq))
    case IpAddress => Some(NotIpAddress)
    case ArnEquals => Some(ArnNotEquals)
    case ArnLike => Some(ArnNotLike)
    case _ => None
  }

  predicate Readable(r: Readers, base: Base, text: string) {
    match base
    case Numeric(_) => r.number(text).Some?
    case Date(_) => ReadDate(r, text).Some?
    case _ => true
  }

  /** A comparison can be decided when some expected value equals the actual one or all of them can be read. */
  predicate Decided(r: Readers, base: Base, value: string, expected: seq<string>) {
    || (exists e <- expected :: Compare(r, base, value, e))
    || (forall e <- expected :: Readable(r, base, value) && Readable(r, base, e))
  }

  lemma CompareOpposite(r: Readers, base: Base, value: string, e: string)
    requires Opposite(base).Some?
    ensures Negated(Opposite(base).value) && !Negated(base)
    ensures Compare(r, Opposite(base).value, value, e) ==
      (Readable(r, base, value) && Readable(r, base, e) && !Compare(r, base, value, e))
  {
  }

  lemma MatchesOpposite(r: Readers, base: Base, value: string, expected: seq<string>)
    requires Opposite(base).Some?
    ensures MatchesExpected(r, Opposite(base).value, value, expected) ==
      (Decided(r, base, value, expected) && !MatchesExpected(r, base, value, expected))
  {
    hide Compare;
    hide Opposite;
    var neg := Opposite(base).value;
    CompareOpposite(r, base, value, "");
    forall e | e in expected
      ensures Compare(r, neg, value, e) == (Readable(r, base, value) && Readable(r, base, e) && !Compare(r, base, value, e))
    {
      CompareOpposite(r, base, value, e);
    }
  }

  /** The values a quantifier looks at. */
  function Looked(q: Quantifier, actual: Value): seq<string>
    requires !actual.Absent?
  {
    if q == Plain then [actual.text] else Items(actual)
  }

  function Dual(q: Quantifier): Quantifier {
    match q case Plain => Plain case ForAll => ForAny case ForAny => ForAll
  }

  /** Whether negating loses nothing: some value settles the affirmative side the way its quantifier wants, or all are decided. */
  predicate Settled(r: Readers, op: Operator, actual: Value, expected: seq<string>) {
    || actual.Absent?
    || (forall v <- Looked(op.quantifier, actual) :: Decided(r, op.base, v, expected))
    || (op.quantifier == ForAny && exists v <- Looked(op.quantifier, actual) :: MatchesExpected(r, op.base, v, expected))
    || (op.quantifier == ForAll && exists v <- Looked(op.quantifier, actual) ::
          Decided(r, op.base, v, expected) && !MatchesExpected(r, op.base, v, expected))
  }

  /** The negated operator under the dual quantifier is the complement exactly when the comparison is settled. */
  lemma ComplementIff(r: Readers, op: Operator, actual: Value, expected: seq<string>)
    requires Opposite(op.base).Some? && !op.ifExists
    ensures var neg := Operator(Opposite(op.base).value, Dual(op.quantifier), false);
      EvaluateKnown(r, neg, actual, expected) == !EvaluateKnown(r, op, actual, expected) <==> Settled(r, op, actual, expected)
  {
    hide MatchesExpected;
    hide Decided;
    hide Opposite;
    CompareOpposite(r, op.base, "", "");
    if !actual.Absent? {
      var neg := Opposite(op.base).value;
      var looked := Looked(op.quantifier, actual);
      forall v | v in looked
        ensures MatchesExpected(r, neg, v, expected) ==
          (Decided(r, op.base, v, expected) && !MatchesExpected(r, op.base, v, expected))
        ensures MatchesExpected(r, op.base, v, expected) ==> Decided(r, op.base, v, expected)
      {
        MatchesOpposite(r, op.base, v, expected);
        MatchesDecided(r, op.base, v, expected);
      }
      if op.quantifier == Plain {
        assert actual.text in looked;
      }
    }
  }

  lemma MatchesDecided(r: Readers, base: Base, value: string, expected: seq<string>)
    requires Opposite(base).Some?
    ensures MatchesExpected(r, base, value, expected) ==> Decided(r, base, value, expected)
  {
  }

  /** String, ARN and address operators settle every value, so their pairs are complements throughout. */
  lemma PairsComplement(r: Readers, op: Operator, actual: Value, expected: seq<string>)
    requires Opposite(op.base).Some? && !op.ifExists && !NeedsReading(op.base)
    ensures EvaluateKnown(r, Operator(Opposite(op.base).value, Dual(op.quantifier), false), actual, expected) ==
      !EvaluateKnown(r, op, actual, expected)
  {
    hide Compare;
    ComplementIff(r, op, actual, expected);
    if !actual.Absent? {
      forall v | v in Looked(op.quantifier, actual) ensures Decided(r, op.base, v, expected) {
      }
    }
  }

  /** The suffix only speaks for absent keys, where it satisfies both sides of a pair at once. */
  lemma IfExistsIff(r: Readers, op: Operator, actual: Value, expected: seq<string>)
    requires Opposite(op.base).Some? && op.ifExists
    ensures var neg := Operator(Opposite(op.base).value, Dual(op.quantifier), true);
      EvaluateKnown(r, neg, actual, expected) == !EvaluateKnown(r, op, actual, expected) <==>
      !actual.Absent? && Settled(r, op, actual, expected)
    ensures !actual.Absent? ==> EvaluateKnown(r, op, actual, expected) == EvaluateKnown(r, op.(ifExists := false), actual, expected)
  {
    hide Opposite;
    hide MatchesExpected;
    hide Settled;
    var bare := op.(ifExists := false);
    ComplementIff(r, bare, actual, expected);
    SettledIgnoresSuffix(r, op, actual, expected);
  }

  lemma SettledIgnoresSuffix(r: Readers, op: Operator, actual: Value, expected: seq<string>)
    ensures Settled(r, op, actual, expected) == Settled(r, op.(ifExists := false), actual, expected)
  {
  }

  /** A list of expected values is a disjunction for an affirmative operator and a conjunction for a negated one. */
  lemma ExpectedListsJoin(r: Readers, base: Base, actual: Value, first: seq<string>, second: seq<string>)
    requires !actual.Absent?
    ensures
      var op := Operator(base, Plain, false);
      var one, other := EvaluateKnown(r, op, actual, first), EvaluateKnown(r, op, actual, second);
      EvaluateKnown(r, op, actual, first + second) == if Negated(base) then one && other else one || other
  {
    hide Compare;
    forall e ensures e in first + second <==> e in first || e in second {
    }
  }

  // ---------------------------------------------------------------- the request-tag branch

  lemma LookUpComparisonText(name: string)
    requires LookUpComparison(name).Some?
    ensures name == ComparisonName(LookUpComparison(name).value)
  {
    hide ComparisonName;
  }

  /** Only an operator's own name looks it up. */
  lemma LookUpInverse(name: string)
    requires LookUp(name).Some?
    ensures name == BaseName(LookUp(name).value)
  {
    hide LookUpText;
    hide LookUpComparison;
    if LookUpText(name).Some? {
      LookUpTextText(name);
    } else if NUMERIC <= name {
      LookUpComparisonText(name[|NUMERIC|..]);
      assert name == NUMERIC + name[|NUMERIC|..];
    } else {
      LookUpComparisonText(name[|DATE|..]);
      assert name == DATE + name[|DATE|..];
    }
  }

  function NegatedBase(name: string): (base: Base)
    requires NegatedName(name)
    ensures Negated(base) && BaseName(base) == name
  {
    if name == "stringnotequals" then StringNotEquals
    else if name == "stringnotequalsignorecase" then StringNotEqualsIgnoreCase
    else if name == "stringnotlike" then StringNotLike
    else if name == "numericnotequals" then Numeric(Neq)
    else if name == "datenotequals" then Date(Neq)
    else if name == "arnnotequals" then ArnNotEquals
    else if name == "arnnotlike" then ArnNotLike
    else NotIpAddress
  }

  /** The two lists of negated operators, one of names and one of operators, agree. */
  lemma NegatedBaseName(base: Base)
    ensures NegatedName(BaseName(base)) == Negated(base)
  {
    if Negated(base) {
      assert NUMERIC + "notequals" == "numericnotequals" && DATE + "notequals" == "datenotequals";
    } else if NegatedName(BaseName(base)) {
      hide LookUp;
      hide BaseName;
      hide Negated;
      var other := NegatedBase(BaseName(base));
      LookUpName(base);
      LookUpName(other);
    }
  }

  /** The branch for request tags strips a name in its own way and comes to the same verdict. */
  lemma BareNameNegated(operator: string)
    requires ParseOperator(operator).Known?
    ensures NegatedName(BareName(operator)) == Negated(ParseOperator(operator).op.base)
  {
    hide LookUp;
    hide Negated;
    hide NegatedName;
    hide BaseName;
    hide StripIfExists;
    var stem := StripIfExists(Lower(operator)).0;
    assert QuantifierName(ForAll)[4] == 'l' && QuantifierName(ForAny)[4] == 'n';
    assert BareName(operator) == StripQuantifier(stem).0;
    LookUpInverse(StripQuantifier(stem).0);
    NegatedBaseName(ParseOperator(operator).op.base);
  }

  /** At the level of a policy: one operator is met on a key exactly when its opposite is not, request tags included. */
  lemma KeyComplement(r: Readers, lookup: string -> Value, positive: string, negative: string, key: string, expected: Expected)
    requires ParseOperator(positive).Known? && ParseOperator(negative).Known?
    requires var op := ParseOperator(positive).op;
      && !op.ifExists && !NeedsReading(op.base) && Opposite(op.base).Some?
      && ParseOperator(negative).op == Operator(Opposite(op.base).value, Dual(op.quantifier), false)
    ensures KeyMet(r, lookup, negative, key, expected) == !KeyMet(r, lookup, positive, key, expected)
  {
    hide ParseOperator;
    hide EvaluateKnown;
    hide BareName;
    hide NegatedName;
    hide Lower;
    hide Opposite;
    var op := ParseOperator(positive).op;
    var actual := lookup(key);
    var list := ExpectedList(expected);
    BareNameNegated(positive);
    BareNameNegated(negative);
    CompareOpposite(r, op.base, "", "");
    PairsComplement(r, op, actual, list);
    if actual.Many? {
      forall v | v in actual.items ensures Evaluate(r, negative, One(v), list) == !Evaluate(r, positive, One(v), list) {
        PairsComplement(r, op, One(v), list);
      }
    }
  }
}
