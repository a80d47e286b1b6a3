/** Cell values, rows and column descriptors of the table, the string operations the
    table applies to them (`trim`, `toLowerCase`, `includes`, `String(value)`,
    `localeCompare`) and the dotted-path lookup `getNestedValue`. */
module Values {

  /** A cell value. `Null` stands for both `null` and `undefined`; numbers and `Date`
      instants (milliseconds since the epoch) are integers; `Obj` is a nested record,
      reached by a dotted column key. */
  datatype Value =
    | Null
    | Num(n: int)
    | Date(time: int)
    | Str(s: string)
    | Obj(fields: map<string, Value>)

  /** A row: a record from property names to values. */
  type Row = map<string, Value>

  /** `ColumnDefinition`: `sortable` and `filterable` are optional in the source and an
      absent flag reads as false. The Angular `cellTemplate` is not modelled. */
  datatype Column = Column(key: string, header: string, sortable: bool, filterable: bool)

  // ---------------------------------------------------------------- strings

  /** The code points that `String.prototype.trim` removes: ECMAScript WhiteSpace
      (tab, vertical tab, form feed, space, no-break space, byte order mark, the Zs
      category) and LineTerminator (line feed, carriage return, U+2028, U+2029). */
  predicate IsWhitespace(c: char) {
    var n := c as int;
    n == 0x09 || n == 0x0A || n == 0x0B || n == 0x0C || n == 0x0D || n == 0x20 ||
    n == 0xA0 || n == 0x1680 || (0x2000 <= n <= 0x200A) || n == 0x2028 || n == 0x2029 ||
    n == 0x202F || n == 0x205F || n == 0x3000 || n == 0xFEFF
  }

  function TrimStart(s: string): (r: string)
    ensures |r| <= |s|
  {
    if s != [] && IsWhitespace(s[0]) then TrimStart(s[1..]) else s
  }

  function TrimEnd(s: string): (r: string)
    ensures |r| <= |s|
  {
    if s != [] && IsWhitespace(s[|s| - 1]) then TrimEnd(s[..|s| - 1]) else s
  }

  /** `s.trim()`. */
  function Trim(s: string): string {
    TrimEnd(TrimStart(s))
  }

  lemma {:induction false} TrimStartBlank(s: string)
    ensures TrimStart(s) == [] <==> forall i :: 0 <= i < |s| ==> IsWhitespace(s[i])
  {
    if s != [] && IsWhitespace(s[0]) {
      TrimStartBlank(s[1..]);
      assert forall i :: 1 <= i < |s| ==> s[i] == s[1..][i - 1];
    }
  }

  lemma {:induction false} TrimEndEmpty(s: string)
    ensures TrimEnd(s) == [] <==> forall i :: 0 <= i < |s| ==> IsWhitespace(s[i])
  {
    if s != [] && IsWhitespace(s[|s| - 1]) {
      TrimEndEmpty(s[..|s| - 1]);
      assert forall i :: 0 <= i < |s| - 1 ==> s[i] == s[..|s| - 1][i];
    }
  }

  /** A string trims to nothing exactly when every character is whitespace. */
  lemma TrimBlank(s: string)
    ensures Trim(s) == [] <==> forall i :: 0 <= i < |s| ==> IsWhitespace(s[i])
  {
    TrimStartBlank(s);
    TrimEndEmpty(TrimStart(s));
    TrimStartSuffix(s);
  }

  /** What `TrimStart` keeps is a suffix of its input; what it drops is whitespace. */
  lemma {:induction false} TrimStartSuffix(s: string)
    ensures TrimStart(s) == s[|s| - |TrimStart(s)|..]
    ensures forall i :: 0 <= i < |s| - |TrimStart(s)| ==> IsWhitespace(s[i])
  {
    if s != [] && IsWhitespace(s[0]) {
      TrimStartSuffix(s[1..]);
    }
  }

  /** `toLowerCase` on the ASCII letters; other characters are kept. */
  function LowerChar(c: char): char {
    if 'A' <= c <= 'Z' then (c as int + 32) as char else c
  }

  /** `s.toLowerCase()`, restricted to ASCII case mapping. */
  function Lower(s: string): (r: string)
    ensures |r| == |s|
    ensures forall i :: 0 <= i < |r| ==> !('A' <= r[i] <= 'Z')
    ensures forall i :: 0 <= i < |s| && 'A' <= s[i] <= 'Z' ==> r[i] as int == s[i] as int + 32
    ensures forall i :: 0 <= i < |s| && !('A' <= s[i] <= 'Z') ==> r[i] == s[i]
  {
    seq(|s|, i requires 0 <= i < |s| => LowerChar(s[i]))
  }

  /** Lower-casing twice is lower-casing once. */
  lemma LowerIdempotent(s: string)
    ensures Lower(Lower(s)) == Lower(s)
  {
    var r := Lower(s);
    assert forall i :: 0 <= i < |r| ==> Lower(r)[i] == r[i];
  }

  /** `haystack.includes(needle)`: some position of `haystack` starts with `needle`. */
  predicate Contains(haystack: string, needle: string)
    decreases |haystack|
  {
    if |needle| > |haystack| then false
    else haystack[..|needle|] == needle || Contains(haystack[1..], needle)
  }

  /** Ordering of two strings by code points: -1, 0 or 1. Stands in for `localeCompare`. */
  function LexCompare(a: string, b: string): (r: int)
    ensures -1 <= r <= 1
    ensures r == 0 <==> a == b
    decreases |a|
  {
    if a == [] && b == [] then 0
    else if a == [] then -1
    else if b == [] then 1
    else if a[0] < b[0] then -1
    else if b[0] < a[0] then 1
    else LexCompare(a[1..], b[1..])
  }

  /** Swapping the operands of `LexCompare` negates the result. */
  lemma {:induction false} LexCompareAntisymmetric(a: string, b: string)
    ensures LexCompare(b, a) == -LexCompare(a, b)
    decreases |a|
  {
    if a != [] && b != [] && a[0] == b[0] {
      LexCompareAntisymmetric(a[1..], b[1..]);
    }
  }

  /** `LexCompare` is a total preorder: it is transitive. */
  lemma {:induction false} LexCompareTransitive(a: string, b: string, c: string)
    requires LexCompare(a, b) <= 0 && LexCompare(b, c) <= 0
    ensures LexCompare(a, c) <= 0
    decreases |a|
  {
    if a != [] && b != [] && c != [] && a[0] == b[0] && b[0] == c[0] {
      LexCompareTransitive(a[1..], b[1..], c[1..]);
    }
  }

  // ---------------------------------------------------------------- String(value)

  function DigitsOf(n: nat): (r: string)
    ensures |r| > 0
  {
    if n < 10 then ['0' + n as char] else DigitsOf(n / 10) + ['0' + (n % 10) as char]
  }

  /** `String(n)` for an integer. */
  function IntToString(i: int): string {
    if i < 0 then "-" + DigitsOf(-i) else DigitsOf(i)
  }

  /** A fixed stand-in for `String(date)`, whose real text depends on the time zone. */
  function DateString(time: int): string {
    "Date " + IntToString(time)
  }

  /** A fixed stand-in for `date.toLocaleDateString()`, which depends on the locale:
      the day number since the epoch. */
  function LocaleDateString(time: int): string {
    IntToString(time / 86400000)
  }

  /** `String(value)`. */
  function Render(v: Value): string {
    match v
    case Null => "null"
    case Num(n) => IntToString(n)
    case Date(t) => DateString(t)
    case Str(s) => s
    case Obj(_) => "[object Object]"
  }

  // ---------------------------------------------------------------- getNestedValue

  /** `obj[prop]` on a row; an absent property is `undefined`. */
  function Lookup(row: Row, prop: string): Value {
    if prop in row then row[prop] else Null
  }

  /** `path.split('.')`. */
  function Split(path: string): (parts: seq<string>)
    ensures |parts| > 0
    decreases |path|
  {
    if '.' !in path then [path]
    else
      var i := FirstDot(path);
      [path[..i]] + Split(path[i + 1..])
  }

  function FirstDot(s: string): (i: nat)
    requires '.' in s
    ensures i < |s| && s[i] == '.' && '.' !in s[..i]
  {
    if s[0] == '.' then 0 else 1 + FirstDot(s[1..])
  }

  /** `parts.join('.')`. */
  function JoinDots(parts: seq<string>): string
    requires |parts| > 0
  {
    if |parts| == 1 then parts[0] else parts[0] + "." + JoinDots(parts[1..])
  }

  /** Splitting at the dots loses nothing: joining the parts gives the path back,
      and no part holds a dot. */
  lemma {:induction false} SplitJoin(path: string)
    ensures JoinDots(Split(path)) == path
    ensures forall k :: 0 <= k < |Split(path)| ==> '.' !in Split(path)[k]
    decreases |path|
  {
    if '.' in path {
      var i := FirstDot(path);
      SplitJoin(path[i + 1..]);
      assert path == path[..i] + "." + path[i + 1..];
      var parts := Split(path);
      assert parts[1..] == Split(path[i + 1..]);
      forall k | 0 <= k < |parts| ensures '.' !in parts[k] {
        if k > 0 { assert parts[k] == Split(path[i + 1..])[k - 1]; }
      }
    }
  }

  /** `props.reduce((current, prop) => current?.[prop], start)`. A property of a value
      that is not a record reads as `undefined`. */
  function Walk(start: Value, props: seq<string>): Value
    decreases |props|
  {
    if props == [] then start
    else
      match start
      case Obj(m) => Walk(if props[0] in m then m[props[0]] else Null, props[1..])
      case _ => Null
  }

  /** `getNestedValue(obj, path)`: a dotted path walks through nested records, any
      other path is a plain property access. */
  function GetNestedValue(row: Row, path: string): (v: Value)
    ensures v == Walk(Obj(row), Split(path))
    ensures '.' !in path ==> v == Lookup(row, path)
  {
    if '.' in path then Walk(Obj(row), Split(path))
    else WalkSinglePart(row, path); Lookup(row, path)
  }

  /** A two-part path into a nested record reads the inner property. */
  lemma NestedRecordLookup(row: Row, path: string, p: string, q: string, m: map<string, Value>)
    requires Split(path) == [p, q] && p in row && row[p] == Obj(m) && q in m
    ensures GetNestedValue(row, path) == m[q]
  {
    assert [p, q][1..] == [q] && [q][1..] == [];
    assert Walk(Obj(row), [p, q]) == Walk(Obj(m), [q]) == Walk(m[q], []);
  }

  /** The two branches of `getNestedValue` agree: reducing over the one-part split of a
      dot-free path is the plain property access. */
  lemma WalkSinglePart(row: Row, path: string)
    requires '.' !in path
    ensures Walk(Obj(row), Split(path)) == Lookup(row, path)
  {
  }

  /** A dotted path whose first step is missing reads as `undefined`. */
  lemma {:induction false} WalkMissingHead(row: Row, path: string)
    requires '.' in path && Split(path)[0] !in row
    ensures GetNestedValue(row, path) == Null
  {
    var parts := Split(path);
    assert |parts| >= 2;
    WalkNull(parts[2..]);
    assert Walk(Obj(row), parts) == Walk(Null, parts[1..]);
  }

  lemma {:induction false} WalkNull(props: seq<string>)
    ensures Walk(Null, props) == Null
  {
  }
}
