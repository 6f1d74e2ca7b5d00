/** Dynamically typed dictionary values, for the places where the bot keeps
    loosely structured `dict`s (parsed torrent names, batch records, settings). */
module Values {
  import opened Wrappers
  import opened Strings

  datatype Value = VNone | VBool(b: bool) | VInt(i: int) | VStr(s: string)

  /** A Python `dict` with string keys. */
  type Dict = map<string, Value>

  /** Python truthiness. */
  predicate Truthy(v: Value) {
    match v
    case VNone => false
    case VBool(b) => b
    case VInt(i) => i != 0
    case VStr(s) => |s| > 0
  }

  /** `d.get(k)`: a missing key reads as `None`. */
  function Get(d: Dict, k: string): (v: Value)
    ensures k !in d ==> v == VNone
    ensures k in d ==> v == d[k]
  {
    if k in d then d[k] else VNone
  }

  /** `str(v)`. */
  function Show(v: Value): (r: string)
    ensures v.VStr? ==> r == v.s
  {
    match v
    case VNone => "None"
    case VBool(b) => if b then "True" else "False"
    case VInt(i) => IntToString(i)
    case VStr(s) => s
  }

  /** Python's `int(s)` on a string: surrounding whitespace, an optional sign,
      then decimal digits; anything else raises (`None`). */
  function ParseInt(s: string): (r: Option<int>)
    ensures IsDigitString(s) ==> r == Some(DigitsValue(s))
  {
    if IsDigitString(s) then
      StripNoop(s);
      Some(DigitsValue(s))
    else
    var t := Strip(s);
    if IsDigitString(t) then
      Some(DigitsValue(t))
    else if |t| >= 2 && t[0] == '+' && IsDigitString(t[1..]) then Some(DigitsValue(t[1..]))
    else if |t| >= 2 && t[0] == '-' && IsDigitString(t[1..]) then Some(0 - DigitsValue(t[1..]) as int)
    else None
  }

  /** `int()` refuses a word: text that starts and ends with a letter. */
  lemma WordIsNoInt(s: string)
    requires |s| > 0 && IsAlpha(s[0]) && IsAlpha(s[|s| - 1])
    ensures ParseInt(s) == None
  {
    StripNoop(s);
    assert !IsDigitString(s) by { assert !IsDigit(s[0]); }
  }

  /** `int(v)`: ints pass through, booleans are 0/1, strings are parsed. */
  function ToInt(v: Value): (r: Option<int>)
    ensures v.VInt? ==> r == Some(v.i)
    ensures v.VNone? ==> r == None
  {
    match v
    case VNone => None
    case VBool(b) => Some(if b then 1 else 0)
    case VInt(i) => Some(i)
    case VStr(s) => ParseInt(s)
  }
}
