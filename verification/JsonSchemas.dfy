/**
 Normalized schemas, and the byte strings each keyword admits, given the strings its subschemas admit: what the
 array keywords, the object keywords and the unions say, without any grammar.
 */
module JsonSchemas {
  import opened Grammars
  import opened RegularExpressions

  datatype ArrayConstraints = ArrayConstraints(prefixItems: seq<nat>, items: Option<nat>, minItems: nat,
    maxItems: Option<nat>)

  datatype AdditionalProperties = Forbidden | Unconstrained | Schema(id: nat)

  // Properties in key order.
  datatype ObjectConstraints = ObjectConstraints(properties: seq<(string, nat)>, required: set<string>,
    additional: AdditionalProperties)

  datatype NormalizedSchema =
    | AnyValue | Never | NullValue | BooleanValue | StringValue(minLength: nat, maxLength: Option<nat>) | NumberValue
      | IntegerValue
    | Const(json: Word) | Enum(values: seq<Word>) | ArrayValue(shape: ArrayConstraints)
      | ObjectValue(fields: ObjectConstraints)
    | Union(branches: seq<nat>) | Ref(target: nat)

  const STRING := "\"([^\"\\\\\\x00-\\x1F\\x7F-\\x9F]|\\\\[\"\\\\/bfnrt])*\""
  const INTEGER := "(-)?(0|[1-9][0-9]*)"
  const NUMBER := "(" + INTEGER + ")" + ("(\\.[0-9]+)?" + "([eE][+-][0-9]+)?")
  const BOOLEAN := "(true|false)"
  const NULL := "null"

  // The pattern of the scalar types.
  function PatternText(kind: NormalizedSchema): string {
    match kind
    case NullValue => NULL
    case BooleanValue => BOOLEAN
    case NumberValue => NUMBER
    case IntegerValue => INTEGER
    case _ => STRING
  }

  const COMMA: Word := [44]
  const COLON: Word := [58]
  const OPEN_ARRAY: Word := [91]
  const CLOSE_ARRAY: Word := [93]
  const OPEN_OBJECT: Word := [123]
  const CLOSE_OBJECT: Word := [125]

  // The strings of every schema of the arena.
  type Strings = nat -> iset<Word>

  // The JSON text of a property name.
  type Quoting = string -> Word

  // ---------- Lists ----------

  // Each part after a comma.
  function JoinTail(parts: seq<Word>): Word {
    if parts == [] then [] else COMMA + parts[0] + JoinTail(parts[1..])
  }

  // The parts separated by commas.
  function Join(parts: seq<Word>): Word {
    if parts == [] then [] else parts[0] + JoinTail(parts[1..])
  }

  // The part at position `i` is a string of the schema for that position; past the prefix, an absent `items`
  // constrains nothing.
  ghost predicate PartFits(strings: Strings, shape: ArrayConstraints, i: nat, part: Word) {
    if i < |shape.prefixItems| then part in strings(shape.prefixItems[i])
    else shape.items.Some? ==> part in strings(shape.items.value)
  }

  ghost predicate PartsFit(strings: Strings, shape: ArrayConstraints, start: nat, parts: seq<Word>) {
    forall j: nat :: j < |parts| ==> PartFits(strings, shape, start + j, parts[j])
  }

  predicate LengthFits(shape: ArrayConstraints, n: nat) {
    shape.minItems <= n && (shape.maxItems.Some? ==> n <= shape.maxItems.value)
  }

  ghost predicate ArrayOf(strings: Strings, shape: ArrayConstraints, parts: seq<Word>, w: Word) {
    LengthFits(shape, |parts|) && PartsFit(strings, shape, 0, parts) && w == OPEN_ARRAY + Join(parts) + CLOSE_ARRAY
  }

  // ---------- Objects ----------

  // The members that are there, in key order.
  function Members(properties: seq<(string, nat)>, quote: Quoting, values: seq<Option<Word>>): seq<Word>
    requires |properties| == |values|
  {
    if properties == [] then []
    else
      var rest := Members(properties[1..], quote, values[1..]);
      if values[0].None? then rest else [quote(properties[0].0) + COLON + values[0].value] + rest
  }

  // Every value is a string of its property's schema, and every required property has one.
  ghost predicate ValuesFit(strings: Strings, properties: seq<(string, nat)>, required: set<string>,
      values: seq<Option<Word>>)
  {
    && |properties| == |values|
    && (forall i: nat :: i < |values| && values[i].Some? ==> values[i].value in strings(properties[i].1))
    && (forall i: nat :: i < |values| && properties[i].0 in required ==> values[i].Some?)
  }

  predicate RequiredKnown(fields: ObjectConstraints) {
    forall name <- fields.required :: exists i: nat :: i < |fields.properties| && fields.properties[i].0 == name
  }

  ghost predicate ObjectOf(strings: Strings, quote: Quoting, fields: ObjectConstraints, values: seq<Option<Word>>,
      w: Word)
  {
    && fields.additional == Forbidden
    && ValuesFit(strings, fields.properties, fields.required, values) && RequiredKnown(fields)
    && w == OPEN_OBJECT + Join(Members(fields.properties, quote, values)) + CLOSE_OBJECT
  }

  // ---------- Schemas ----------

  // The strings a schema admits; `AnyValue`, open objects and strings of bounded length are not lowered and admit
  // nothing here.
  ghost predicate Admits(meaning: Meaning, quote: Quoting, strings: Strings, kind: NormalizedSchema, w: Word) {
    match kind
    case AnyValue => false
    case Never => false
    case NullValue => w in meaning(PatternText(kind))
    case BooleanValue => w in meaning(PatternText(kind))
    case StringValue(minLength, maxLength) => minLength == 0 && maxLength.None? && w in meaning(PatternText(kind))
    case NumberValue => w in meaning(PatternText(kind))
    case IntegerValue => w in meaning(PatternText(kind))
    case Const(json) => w == json
    case Enum(values) => w in values
    case ArrayValue(shape) => exists parts :: ArrayOf(strings, shape, parts, w)
    case ObjectValue(fields) => exists values :: ObjectOf(strings, quote, fields, values, w)
    case Union(branches) => exists b :: b in branches && w in strings(b)
    case Ref(target) => w in strings(target)
  }

  // ---------- Arenas ----------

  predicate RefsKnown(count: nat, shape: ArrayConstraints) {
    (forall id <- shape.prefixItems :: id < count) && (shape.items.Some? ==> shape.items.value < count)
  }

  predicate FieldsKnown(count: nat, fields: ObjectConstraints) {
    forall p <- fields.properties :: p.1 < count
  }

  datatype Arena = Arena(kinds: seq<NormalizedSchema>, root: nat)

  predicate KindKnown(count: nat, kind: NormalizedSchema) {
    match kind
    case ArrayValue(shape) => RefsKnown(count, shape)
    case ObjectValue(fields) => FieldsKnown(count, fields)
    case Union(branches) => forall b <- branches :: b < count
    case Ref(target) => target < count
    case Const(json) => json != []
    case Enum(values) => forall json <- values :: json != []
    case _ => true
  }

  // The JSON text of a name is never empty.
  ghost predicate QuotesSomething(quote: Quoting) {
    forall name :: quote(name) != []
  }

  predicate ArenaKnown(arena: Arena) {
    arena.root < |arena.kinds| && forall kind <- arena.kinds :: KindKnown(|arena.kinds|, kind)
  }

  // More strings for the subschemas, more strings for the schema.
  lemma AdmitsMore(meaning: Meaning, quote: Quoting, few: Strings, many: Strings, count: nat, kind: NormalizedSchema,
      w: Word)
    requires (forall k: nat, x: Word :: k < count && x in few(k) ==> x in many(k)) && KindKnown(count, kind)
    requires Admits(meaning, quote, few, kind, w)
    ensures Admits(meaning, quote, many, kind, w)
  {
    match kind
    case ArrayValue(shape) =>
      var parts: seq<Word> :| ArrayOf(few, shape, parts, w);
      forall j: nat | j < |parts| ensures PartFits(many, shape, 0 + j, parts[j]) {
        assert PartFits(few, shape, 0 + j, parts[j]);
        if j < |shape.prefixItems| {
          assert shape.prefixItems[j] in shape.prefixItems;
        }
      }
      assert ArrayOf(many, shape, parts, w);
    case ObjectValue(fields) =>
      var values: seq<Option<Word>> :| ObjectOf(few, quote, fields, values, w);
      forall i: nat | i < |values| && values[i].Some? ensures values[i].value in many(fields.properties[i].1) {
        assert fields.properties[i] in fields.properties;
      }
      assert ObjectOf(many, quote, fields, values, w);
    case _ =>
  }
}
