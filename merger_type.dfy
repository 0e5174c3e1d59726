/** Shapes of merger classes and the names synthesized for them
    (service/class-merging/MergerType.cpp). */
module MergerTypeNaming {
  import opened Wrappers
  import opened Text

  /** The descriptor of `java.lang.String`, counted apart from other references. */
  const JavaLangString: string := "Ljava/lang/String;"

  /** The seven counters of a shape, in the order they are printed. */
  datatype FieldCategory = StringField | ReferenceField | BoolField | IntField | LongField | DoubleField | FloatField

  /** An instance field as the shape sees it: the descriptor of its type
      and the shorty character of that type (computed by `type::type_shorty`). */
  datatype Field = Field(typeDescriptor: string, shorty: char)

  /** Every field the shape constructor can classify. Any other shorty ends
      in `not_reached()`. */
  predicate Classifiable(f: Field) {
    f.typeDescriptor == JavaLangString || f.shorty in "L[JDFZBSCI"
  }

  /** The counter a field is added to. */
  function Classify(f: Field): (c: FieldCategory)
    requires Classifiable(f)
    ensures c == StringField <==> f.typeDescriptor == JavaLangString
    ensures c == ReferenceField <==> f.typeDescriptor != JavaLangString && f.shorty in "L["
    ensures c == IntField <==> f.typeDescriptor != JavaLangString && f.shorty in "BSCI"
    ensures c == BoolField <==> f.typeDescriptor != JavaLangString && f.shorty == 'Z'
    ensures c == LongField <==> f.typeDescriptor != JavaLangString && f.shorty == 'J'
    ensures c == DoubleField <==> f.typeDescriptor != JavaLangString && f.shorty == 'D'
    ensures c == FloatField <==> f.typeDescriptor != JavaLangString && f.shorty == 'F'
  {
    if f.typeDescriptor == JavaLangString then StringField
    else if f.shorty == 'L' || f.shorty == '[' then ReferenceField
    else if f.shorty == 'J' then LongField
    else if f.shorty == 'D' then DoubleField
    else if f.shorty == 'F' then FloatField
    else if f.shorty == 'Z' then BoolField
    else IntField
  }

  /** `MergerType::Shape`: how many fields of each category a class has. */
  datatype Shape = Shape(
    stringFields: nat, referenceFields: nat, boolFields: nat, intFields: nat,
    longFields: nat, doubleFields: nat, floatFields: nat)
  {
    function Counter(c: FieldCategory): nat {
      match c
      case StringField => stringFields
      case ReferenceField => referenceFields
      case BoolField => boolFields
      case IntField => intFields
      case LongField => longFields
      case DoubleField => doubleFields
      case FloatField => floatFields
    }

    function Total(): nat {
      stringFields + referenceFields + boolFields + intFields + longFields + doubleFields + floatFields
    }

    /** The counters in printing order: string, reference, bool, int,
        long, double, float. */
    function Counts(): seq<nat> {
      [stringFields, referenceFields, boolFields, intFields, longFields, doubleFields, floatFields]
    }
  }

  /** How many of `fields` fall in category `c`. */
  function CountOf(fields: seq<Field>, c: FieldCategory): nat
    requires forall i :: 0 <= i < |fields| ==> Classifiable(fields[i])
    decreases |fields|
  {
    if |fields| == 0 then 0
    else CountOf(fields[..|fields| - 1], c) + (if Classify(fields[|fields| - 1]) == c then 1 else 0)
  }

  /** Each field is counted in exactly one category. */
  lemma {:induction false} CountsSumToLength(fields: seq<Field>)
    requires forall i :: 0 <= i < |fields| ==> Classifiable(fields[i])
    ensures CountOf(fields, StringField) + CountOf(fields, ReferenceField) + CountOf(fields, BoolField)
          + CountOf(fields, IntField) + CountOf(fields, LongField) + CountOf(fields, DoubleField)
          + CountOf(fields, FloatField) == |fields|
    decreases |fields|
  {
    if |fields| > 0 {
      CountsSumToLength(fields[..|fields| - 1]);
    }
  }

  /** `Shape::Shape(fields)`: one pass over the fields, bumping one counter per field. */
  method ShapeOf(fields: seq<Field>) returns (shape: Shape)
    requires forall i :: 0 <= i < |fields| ==> Classifiable(fields[i])
    ensures forall c :: shape.Counter(c) == CountOf(fields, c)
    ensures shape.Total() == |fields|
  {
    shape := Shape(0, 0, 0, 0, 0, 0, 0);
    for i := 0 to |fields|
      invariant forall c :: shape.Counter(c) == CountOf(fields[..i], c)
    {
      assert fields[..i + 1][..i] == fields[..i];
      shape := AddField(shape, fields[i]);
    }
    assert fields[..|fields|] == fields;
    CountsSumToLength(fields);
  }

  /** The body of the constructor's loop: bump the counter of one field. */
  method AddField(shape: Shape, field: Field) returns (r: Shape)
    requires Classifiable(field)
    ensures forall c :: r.Counter(c) == shape.Counter(c) + (if Classify(field) == c then 1 else 0)
  {
    r := shape;
    if field.typeDescriptor == JavaLangString {
      r := r.(stringFields := r.stringFields + 1);
      return;
    }
    match field.shorty
    case 'L' => r := r.(referenceFields := r.referenceFields + 1);
    case '[' => r := r.(referenceFields := r.referenceFields + 1);
    case 'J' => r := r.(longFields := r.longFields + 1);
    case 'D' => r := r.(doubleFields := r.doubleFields + 1);
    case 'F' => r := r.(floatFields := r.floatFields + 1);
    case 'Z' => r := r.(boolFields := r.boolFields + 1);
    case 'B' => r := r.(intFields := r.intFields + 1);
    case 'S' => r := r.(intFields := r.intFields + 1);
    case 'C' => r := r.(intFields := r.intFields + 1);
    case 'I' => r := r.(intFields := r.intFields + 1);
    case _ => assert false;
  }

  // ----- Printing a shape -----

  /** `Shape::to_string`: the seven counters between parentheses, each
      in decimal, separated by commas. */
  function ShapeToString(s: Shape): string {
    "(" + Join(Decimals(s.Counts()), ',') + ")"
  }

  function Decimals(ns: seq<nat>): (ds: seq<string>)
    ensures |ds| == |ns|
    ensures forall i :: 0 <= i < |ns| ==> ds[i] == Decimal(ns[i])
  {
    seq(|ns|, i requires 0 <= i < |ns| => Decimal(ns[i]))
  }

  /** Reads a printed shape back; `None` for text of any other form. */
  function ParseShape(text: string): Option<Shape> {
    if |text| < 2 || text[0] != '(' || text[|text| - 1] != ')' then None
    else
      var parts := SplitOn(text[1..|text| - 1], ',');
      if |parts| != 7 || exists i :: 0 <= i < 7 && !AllDigits(parts[i]) then None
      else Some(Shape(ParseDecimal(parts[0]), ParseDecimal(parts[1]), ParseDecimal(parts[2]),
                      ParseDecimal(parts[3]), ParseDecimal(parts[4]), ParseDecimal(parts[5]),
                      ParseDecimal(parts[6])))
  }

  lemma DecimalsHaveNoComma(ns: seq<nat>)
    ensures forall i :: 0 <= i < |ns| ==> ',' !in Decimals(ns)[i]
  {
    forall i | 0 <= i < |ns| ensures ',' !in Decimals(ns)[i] {
      DigitsHaveNo(Decimal(ns[i]), ',');
    }
  }

  /** The printed shape is "(", seven counters with exactly six commas
      between them, and ")". */
  lemma ShapeTextLayout(s: Shape)
    ensures ShapeToString(s)[0] == '(' && ShapeToString(s)[|ShapeToString(s)| - 1] == ')'
    ensures CountChar(ShapeToString(s), ',') == 6
  {
    var ds := Decimals(s.Counts());
    DecimalsHaveNoComma(s.Counts());
    JoinCountsSeparators(ds, ',');
    CountCharAppend("(", Join(ds, ','), ',');
    CountCharAppend("(" + Join(ds, ','), ")", ',');
  }

  /** Printing loses nothing: the counters can be read back in order. */
  lemma ShapeTextRoundTrip(s: Shape)
    ensures ParseShape(ShapeToString(s)) == Some(s)
  {
    var text := ShapeToString(s);
    var ds := Decimals(s.Counts());
    assert text[1..|text| - 1] == Join(ds, ',');
    DecimalsHaveNoComma(s.Counts());
    SplitJoin(ds, ',');
    forall i | 0 <= i < 7 ensures ParseDecimal(ds[i]) == s.Counts()[i] {
      DecimalRoundTrip(s.Counts()[i]);
    }
  }

  // ----- The root name tag -----

  /** The greatest index below `k` holding an upper-case letter. */
  function LastUpperBefore(s: string, k: nat): (r: Option<nat>)
    requires k <= |s|
    ensures r.Some? ==> r.value < k && IsUpper(s[r.value])
    ensures r.Some? ==> forall m :: r.value < m < k ==> !IsUpper(s[m])
    ensures r.None? ==> forall m :: 0 <= m < k ==> !IsUpper(s[m])
    decreases k
  {
    if k == 0 then None
    else if IsUpper(s[k - 1]) then Some(k - 1)
    else LastUpperBefore(s, k - 1)
  }

  /** The tag `get_root_type_name_tag` extracts from a simple class name:
      the suffix starting at the last upper-case letter, preceded by the
      nearest upper-case letter before it if there is one; the whole name
      when it has no upper-case letter. */
  function RootTag(s: string): (tag: string)
    ensures |tag| <= |s|
    ensures LastUpperBefore(s, |s|).None? ==> tag == s
  {
    match LastUpperBefore(s, |s|)
    case None => s
    case Some(i) =>
      (match LastUpperBefore(s, i)
       case None => ""
       case Some(j) => [s[j]]) + s[i..]
  }

  /** The example of the source's documentation comment. */
  lemma RootTagExample()
    ensures RootTag("TypedEventBase") == "EBase"
  {
    assert LastUpperBefore("TypedEventBase", 14) == Some(10);
    assert LastUpperBefore("TypedEventBase", 10) == Some(5);
  }

  /** With `i` the last upper-case position: the tag is the suffix from
      `i`, preceded by the upper-case letter at `j` when `j` is the nearest
      one before `i`. */
  lemma RootTagFromLastCapitals(s: string, i: nat, j: nat)
    requires i < |s| && IsUpper(s[i]) && forall m :: i < m < |s| ==> !IsUpper(s[m])
    requires j < i && IsUpper(s[j]) && forall m :: j < m < i ==> !IsUpper(s[m])
    ensures RootTag(s) == [s[j]] + s[i..]
  {
    LastUpperIs(s, |s|, i);
    LastUpperIs(s, i, j);
  }

  /** With `i` the only upper-case position, the tag is the suffix from `i`. */
  lemma RootTagFromOnlyCapital(s: string, i: nat)
    requires i < |s| && IsUpper(s[i]) && forall m :: 0 <= m < |s| && m != i ==> !IsUpper(s[m])
    ensures RootTag(s) == s[i..]
  {
    LastUpperIs(s, |s|, i);
    assert LastUpperBefore(s, i).None?;
  }

  lemma LastUpperIs(s: string, k: nat, i: nat)
    requires i < k <= |s| && IsUpper(s[i]) && forall m :: i < m < k ==> !IsUpper(s[m])
    ensures LastUpperBefore(s, k) == Some(i)
  {
  }

  lemma NoUpperBefore(s: string, k: nat)
    requires k <= |s| && forall m :: 0 <= m < k ==> !IsUpper(s[m])
    ensures LastUpperBefore(s, k).None?
  {
  }

  /** A tag without upper-case letters is the whole name. */
  lemma RootTagOfLowerCase(s: string)
    requires forall m :: 0 <= m < |s| ==> !IsUpper(s[m])
    ensures RootTag(s) == s
  {
  }

  /** `get_root_type_name_tag`: scan back to front appending characters
      up to and including the first upper-case one, then keep scanning for
      one more upper-case letter, then reverse what was collected. */
  method RootTypeNameTag(simpleName: string) returns (tag: string)
    ensures tag == RootTag(simpleName)
  {
    var n := |simpleName|;
    var rev, k := ScanLastWord(simpleName);
    if k < n {
      var i := n - 1 - k;
      k := ScanForCapital(simpleName, i);
      if k < n {
        var j := n - 1 - k;
        rev := rev + [simpleName[j]];
        TagFromTwoCapitals(simpleName, i, j);
      } else {
        TagFromOneCapital(simpleName, i);
      }
    } else {
      ReversedTwice(simpleName);
    }
    tag := Reversed(rev);
  }

  /** Reversing what the scan collected when it met two capitals. */
  lemma TagFromTwoCapitals(s: string, i: nat, j: nat)
    requires j < i < |s|
    requires LastUpperBefore(s, |s|) == Some(i) && LastUpperBefore(s, i) == Some(j)
    ensures Reversed(Reversed(s[i..]) + [s[j]]) == RootTag(s)
  {
    ReversedTwice(s[i..]);
    ReversedAppend(Reversed(s[i..]), s[j]);
    RootTagWithTwoCapitals(s, i, j);
  }

  /** Reversing what the scan collected when it met only one capital. */
  lemma TagFromOneCapital(s: string, i: nat)
    requires i < |s|
    requires LastUpperBefore(s, |s|) == Some(i) && LastUpperBefore(s, i).None?
    ensures Reversed(Reversed(s[i..])) == RootTag(s)
  {
    ReversedTwice(s[i..]);
    RootTagWithOneCapital(s, i);
  }

  method ScanLastWord(s: string) returns (rev: string, k: nat)
    ensures k <= |s|
    ensures k < |s| ==> LastUpperBefore(s, |s|) == Some(|s| - 1 - k) && rev == Reversed(s[|s| - 1 - k..])
    ensures k == |s| ==> LastUpperBefore(s, |s|).None? && rev == Reversed(s)
  {
    var n := |s|;
    rev := [];
    k := 0;
    while k < n
      invariant 0 <= k <= n
      invariant rev == Reversed(s[n - k..])
      invariant forall m :: n - k <= m < n ==> !IsUpper(s[m])
    {
      var c := s[n - 1 - k];
      ReversedAppendFront(s, n - 1 - k);
      if IsUpper(c) {
        rev := rev + [c];
        LastUpperIs(s, n, n - 1 - k);
        return;
      }
      rev := rev + [c];
      k := k + 1;
    }
    assert s[n - k..] == s;
    NoUpperBefore(s, n);
  }

  /** The second loop: scanning on from just before position `i` for the
      nearest upper-case letter; `|s| - 1 - k` is where it stops. */
  method ScanForCapital(s: string, i: nat) returns (k: nat)
    requires i < |s|
    ensures |s| - i <= k <= |s|
    ensures k < |s| ==> LastUpperBefore(s, i) == Some(|s| - 1 - k)
    ensures k == |s| ==> LastUpperBefore(s, i).None?
  {
    var n := |s|;
    k := n - i;
    while k < n
      invariant n - i <= k <= n
      invariant forall m :: n - k <= m < i ==> !IsUpper(s[m])
    {
      if IsUpper(s[n - 1 - k]) {
        LastUpperIs(s, i, n - 1 - k);
        return;
      }
      k := k + 1;
    }
    NoUpperBefore(s, i);
  }

  lemma RootTagWithTwoCapitals(s: string, i: nat, j: nat)
    requires j < i < |s|
    requires LastUpperBefore(s, |s|) == Some(i) && LastUpperBefore(s, i) == Some(j)
    ensures RootTag(s) == [s[j]] + s[i..]
  {
  }

  lemma RootTagWithOneCapital(s: string, i: nat)
    requires i < |s|
    requires LastUpperBefore(s, |s|) == Some(i) && LastUpperBefore(s, i).None?
    ensures RootTag(s) == s[i..]
  {
    assert RootTag(s) == "" + s[i..];
  }

  /** Extending a suffix by the character in front of it. */
  lemma ReversedAppendFront(s: string, m: nat)
    requires m < |s|
    ensures Reversed(s[m..]) == Reversed(s[m + 1..]) + [s[m]]
  {
    assert s[m..][1..] == s[m + 1..];
  }

  // ----- The synthesized type name -----

  /** The digits of the seven counters, written one after the other in
      printing order, with nothing between them. */
  function CounterDigits(s: Shape): string {
    Decimal(s.stringFields) + Decimal(s.referenceFields) + Decimal(s.boolFields) + Decimal(s.intFields)
      + Decimal(s.longFields) + Decimal(s.doubleFields) + Decimal(s.floatFields)
  }

  /** What follows the counter digits: `_I<interdex subgroup>` when an
      interdex subgroup is given and `_<subgroup>` when the subgroup index
      is not 0. */
  function NameSuffix(interdexSubgroup: Option<nat>, subgroup: nat): string {
    (if interdexSubgroup.Some? then "_I" + Decimal(interdexSubgroup.value) else "")
      + (if subgroup != 0 then "_" + Decimal(subgroup) else "")
  }

  /** `Shape::build_type_name`. The root type is given by its simple name. */
  function BuildTypeName(shape: Shape, prefix: string, rootSimpleName: string, name: string, count: nat,
                         interdexSubgroup: Option<nat>, subgroup: nat): (r: string)
    ensures |r| >= 2 && r[0] == 'L' && r[|r| - 1] == ';'
    ensures |r| > |prefix| && r[1..1 + |prefix|] == prefix
    ensures var t := NameSuffix(interdexSubgroup, subgroup);
            |t| < |r| && r[|r| - 1 - |t|..|r| - 1] == t
  {
    var tail := RootTag(rootSimpleName) + name + Decimal(count) + "S" + CounterDigits(shape);
    var t := NameSuffix(interdexSubgroup, subgroup);
    NameFrame(prefix, tail, t);
    "L" + (prefix + (tail + (t + ";")))
  }

  /** Where the prefix and the suffix sit in a name of the form
      `L<prefix><middle><suffix>;`. */
  lemma NameFrame(prefix: string, middle: string, suffix: string)
    ensures var r := "L" + (prefix + (middle + (suffix + ";")));
            |r| >= 2 && r[0] == 'L' && r[|r| - 1] == ';' && |r| > |prefix| && r[1..1 + |prefix|] == prefix
            && |suffix| < |r| && r[|r| - 1 - |suffix|..|r| - 1] == suffix
  {
    var r := "L" + (prefix + (middle + (suffix + ";")));
    assert r[1..1 + |prefix|] == prefix;
    assert r[|r| - 1 - |suffix|..|r| - 1] == suffix;
  }

  /** Reads the two subgroup indices back from a name suffix. */
  function ParseNameSuffix(t: string): (Option<nat>, nat) {
    var parts := SplitOn(t, '_');
    if |parts| == 1 then (None, 0)
    else if |parts[1]| >= 1 && parts[1][0] == 'I' then
      (Some(DecimalOrZero(parts[1][1..])), if |parts| >= 3 then DecimalOrZero(parts[2]) else 0)
    else (None, DecimalOrZero(parts[1]))
  }

  function DecimalOrZero(s: string): nat {
    if AllDigits(s) then ParseDecimal(s) else 0
  }

  /** The suffix determines both indices: it starts with `_I` exactly when
      an interdex subgroup is present, and it carries `_<subgroup>` exactly
      when the subgroup index is not 0. */
  lemma NameSuffixRoundTrip(interdexSubgroup: Option<nat>, subgroup: nat)
    ensures ParseNameSuffix(NameSuffix(interdexSubgroup, subgroup)) == (interdexSubgroup, subgroup)
  {
    match interdexSubgroup {
      case Some(x) =>
        if subgroup != 0 {
          assert NameSuffix(interdexSubgroup, subgroup) == "_I" + Decimal(x) + "_" + Decimal(subgroup);
          ParseBothIndices(x, subgroup);
        } else {
          assert NameSuffix(interdexSubgroup, subgroup) == "_I" + Decimal(x);
          ParseInterdexIndex(x);
        }
      case None =>
        if subgroup != 0 {
          assert NameSuffix(interdexSubgroup, subgroup) == "_" + Decimal(subgroup);
          ParseSubgroupIndex(subgroup);
        } else {
          assert SplitOn("", '_') == [""];
        }
    }
  }

  lemma ParseBothIndices(x: nat, g: nat)
    requires g != 0
    ensures ParseNameSuffix("_I" + Decimal(x) + "_" + Decimal(g)) == (Some(x), g)
  {
    DigitsHaveNo(Decimal(x), '_');
    DigitsHaveNo(Decimal(g), '_');
    SplitBothIndices(Decimal(x), Decimal(g));
    DecimalRoundTrip(x);
    DecimalRoundTrip(g);
  }

  lemma ParseInterdexIndex(x: nat)
    ensures ParseNameSuffix("_I" + Decimal(x)) == (Some(x), 0)
  {
    DigitsHaveNo(Decimal(x), '_');
    SplitInterdexIndex(Decimal(x));
    DecimalRoundTrip(x);
  }

  lemma ParseSubgroupIndex(g: nat)
    requires g != 0
    ensures ParseNameSuffix("_" + Decimal(g)) == (None, g)
  {
    DigitsHaveNo(Decimal(g), '_');
    SplitSubgroupIndex(Decimal(g));
    DecimalRoundTrip(g);
  }

  lemma SplitBothIndices(a: string, b: string)
    requires '_' !in a && '_' !in b
    ensures SplitOn("_I" + a + "_" + b, '_') == ["", "I" + a, b]
  {
    var parts := ["", "I" + a, b];
    assert Join(parts[1..], '_') == parts[1] + "_" + parts[2] by {
      assert parts[1..][1..] == [parts[2]];
    }
    assert Join(parts, '_') == "_I" + a + "_" + b;
    SplitJoin(parts, '_');
  }

  lemma SplitInterdexIndex(a: string)
    requires '_' !in a
    ensures SplitOn("_I" + a, '_') == ["", "I" + a]
  {
    var parts := ["", "I" + a];
    assert Join(parts, '_') == "_I" + a;
    SplitJoin(parts, '_');
  }

  lemma SplitSubgroupIndex(b: string)
    requires '_' !in b
    ensures SplitOn("_" + b, '_') == ["", b]
  {
    var parts := ["", b];
    assert Join(parts, '_') == "_" + b;
    SplitJoin(parts, '_');
  }

  /** The counters are written without separators, so the name does not
      always tell shapes apart: (1, 11, 0, ...) and (11, 1, 0, ...) give the
      same name when every other argument agrees. */
  lemma CounterDigitsAmbiguous(prefix: string, rootSimpleName: string, name: string, count: nat,
                               interdexSubgroup: Option<nat>, subgroup: nat)
    ensures Shape(1, 11, 0, 0, 0, 0, 0) != Shape(11, 1, 0, 0, 0, 0, 0)
    ensures BuildTypeName(Shape(1, 11, 0, 0, 0, 0, 0), prefix, rootSimpleName, name, count, interdexSubgroup, subgroup)
         == BuildTypeName(Shape(11, 1, 0, 0, 0, 0, 0), prefix, rootSimpleName, name, count, interdexSubgroup, subgroup)
  {
    assert Decimal(11) == "11";
    assert Decimal(1) == "1";
    assert CounterDigits(Shape(1, 11, 0, 0, 0, 0, 0)) == CounterDigits(Shape(11, 1, 0, 0, 0, 0, 0));
  }
}
