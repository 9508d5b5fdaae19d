/** The JSON-shaped dictionaries the program passes around: a Zoom meeting
    is a dictionary of string keys to strings and integers, and `str(...)`
    renders each value for comparison. */
module Values {
  import opened Decimal

  /** A scalar field value of a meeting or of a fingerprint bag. */
  datatype Value = VStr(s: string) | VInt(n: int)

  /** A Python `dict` with string keys (key order plays no part in the model). */
  type Dict = map<string, Value>

  /** Python's `str(v)`: a string is itself, an integer its decimal digits. */
  function Str(v: Value): (r: string)
    ensures v.VStr? ==> r == v.s
  {
    match v
    case VStr(s) => s
    case VInt(n) => IntToString(n)
  }

  /** The same dictionary with every value replaced by its string
      rendering: what a store that keeps only strings gives back. */
  function Stringify(d: Dict): (r: Dict)
    ensures r.Keys == d.Keys
    ensures forall k :: k in r ==> r[k] == VStr(Str(d[k]))
  {
    map k | k in d :: VStr(Str(d[k]))
  }

  /** Two integers render alike only when they are equal, and an integer
      renders like exactly one string: its digits. */
  lemma StrOfIntegers(a: int, b: int, s: string)
    ensures Str(VInt(a)) == Str(VInt(b)) <==> a == b
    ensures Str(VInt(a)) == Str(VStr(s)) <==> s == IntToString(a)
  {
    if Str(VInt(a)) == Str(VInt(b)) {
      IntToStringInjective(a, b);
    }
  }
}
