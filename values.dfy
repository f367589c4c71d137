/**
 * The dynamically typed values the memory, the tracer payloads and the
 * execution context hold (Python's `Any` restricted to JSON-like data), and
 * their text as Python's `str()` and `repr()` print it.
 */
module Values {
  import opened Dicts
  import opened Text

  datatype Value =
    | VNone
    | VBool(b: bool)
    | VInt(i: int)
    | VStr(s: string)
    | VList(items: seq<Value>)
    | VDict(fields: Dict<string, Value>)

  /** A `Dict[str, Any]`. */
  type Fields = Dict<string, Value>

  /** `repr(s)` of a string: single quotes unless the text holds a single quote and no double quote. */
  function QuoteString(s: string): (r: string)
    ensures |r| == |s| + 2
    ensures r[1..|r| - 1] == s
  {
    if '\'' in s && '"' !in s then "\"" + s + "\"" else "'" + s + "'"
  }

  /** `repr(v)`: how `v` prints inside a list or a dict. */
  function Repr(v: Value): string
    decreases v, 1
  {
    match v
    case VNone => "None"
    case VBool(b) => if b then "True" else "False"
    case VInt(i) => IntToString(i)
    case VStr(s) => QuoteString(s)
    case VList(items) => "[" + Join(", ", seq(|items|, k requires 0 <= k < |items| => Repr(items[k]))) + "]"
    case VDict(fields) => "{" + Join(", ", FieldTexts(fields)) + "}"
  }

  /** The text of one dict entry, `'key': repr(value)`. */
  function FieldText(f: (string, Value)): string
    decreases f, 0
  {
    QuoteString(f.0) + ": " + Repr(f.1)
  }

  /** The texts of a dict's entries, in order. */
  function FieldTexts(fields: Fields): (r: seq<string>)
    decreases fields, 0
    ensures |r| == |fields|
    ensures forall k :: 0 <= k < |fields| ==> r[k] == FieldText(fields[k])
  {
    seq(|fields|, k requires 0 <= k < |fields| => FieldText(fields[k]))
  }

  /** `str(v)`: a string is its own text, anything else prints as its `repr`. */
  function Str(v: Value): (r: string)
    ensures v.VStr? ==> r == v.s
    ensures !v.VStr? ==> r == Repr(v)
  {
    if v.VStr? then v.s else Repr(v)
  }

  /** A string occurs in its own `repr`. */
  lemma ReprContainsString(s: string)
    ensures Contains(s, Repr(VStr(s)))
  {
    var quoted := QuoteString(s);
    assert quoted == quoted[..1] + s + quoted[|quoted| - 1..];
    ContainsTrivial(s, "");
    ContainsInside(s, quoted[..1], s, quoted[|quoted| - 1..]);
  }

  /** The `repr` of a value occurs in the text of its dict entry. */
  lemma FieldTextContainsValue(f: (string, Value))
    ensures Contains(Repr(f.1), FieldText(f))
  {
    var r := Repr(f.1);
    ContainsTrivial(r, "");
    ContainsInside(r, QuoteString(f.0) + ": ", r, "");
    assert FieldText(f) == QuoteString(f.0) + ": " + r + "";
  }

  /** The text of each entry occurs in the `repr` of the dict. */
  lemma DictReprContainsField(fields: Fields, j: nat)
    requires j < |fields|
    ensures Contains(FieldText(fields[j]), Repr(VDict(fields)))
  {
    var joined := Join(", ", FieldTexts(fields));
    JoinContains(", ", FieldTexts(fields), j);
    ContainsTrivial(joined, "");
    ContainsInside(joined, "{", joined, "}");
    ContainsTransitive(FieldText(fields[j]), joined, Repr(VDict(fields)));
  }
}
