/** Values and string primitives of JavaScript, as the screens use them.
    Python's `str.split(sep)` with an explicit separator behaves like
    JavaScript's `split` with a string separator, so the consumers use
    `Split` too. */
module Js {

  datatype Option<T> = None | Some(value: T)

  /** A JavaScript value as `JSON.parse` produces it, plus `undefined`.
      Numbers are integers only. An object lists its own properties in
      `for...in` order; objects from `JSON.parse` have distinct keys. */
  datatype Json =
    | Undefined
    | Null
    | Bool(b: bool)
    | Num(n: int)
    | Str(s: string)
    | Arr(items: seq<Json>)
    | Obj(fields: seq<Field>)

  datatype Field = Field(key: string, value: Json)

  /** ToBoolean: the values an `if` or `||` treats as true. */
  predicate Truthy(v: Json) {
    match v
    case Undefined => false
    case Null => false
    case Bool(b) => b
    case Num(n) => n != 0
    case Str(s) => s != ""
    case Arr(_) => true
    case Obj(_) => true
  }

  predicate Nullish(v: Json) {
    v.Undefined? || v.Null?
  }

  /** `a || b` */
  function Or(a: Json, b: Json): Json {
    if Truthy(a) then a else b
  }

  /** `a && b` */
  function And(a: Json, b: Json): Json {
    if Truthy(a) then b else a
  }

  function Lookup(fields: seq<Field>, key: string): Json {
    if fields == [] then Undefined
    else if fields[0].key == key then fields[0].value
    else Lookup(fields[1..], key)
  }

  /** `v?.key` for the property names the screens read: an object's own
      property, and `undefined` for every other value. */
  function Get(v: Json, key: string): Json {
    match v
    case Obj(fields) => Lookup(fields, key)
    case _ => Undefined
  }

  /** `v?.k1?.k2?...` */
  function Path(v: Json, keys: seq<string>): Json
    decreases |keys|
  {
    if keys == [] then v else Path(Get(v, keys[0]), keys[1..])
  }

  /** `Object.prototype.hasOwnProperty.call(v, key)` for a value that is
      not `null` or `undefined`: an object's listed keys; an array's or a
      string's `length` and the indexes below it; nothing of a number or a
      boolean. */
  predicate HasOwn(v: Json, key: string) {
    match v
    case Obj(fields) => exists i :: 0 <= i < |fields| && fields[i].key == key
    case Arr(items) => key == "length" || (ArrayIndex(key).Some? && ArrayIndex(key).value < |items|)
    case Str(s) => key == "length" || (ArrayIndex(key).Some? && ArrayIndex(key).value < |s|)
    case _ => false
  }

  /** The index a property key names: decimal digits without a leading
      zero (`"0"` itself included). */
  function ArrayIndex(key: string): Option<nat> {
    if key == [] || DigitRun(key) != |key| || (key[0] == '0' && |key| > 1) then None
    else Some(DecValue(key))
  }

  /** The decimal text of every index names that index. */
  lemma ArrayIndexOfDigits(n: nat)
    ensures ArrayIndex(Digits(n)) == Some(n)
  {
    RunOfDigits(Digits(n));
    DecValueDigits(n);
  }

  /** `v[key]` for an own property `key` of `v`. */
  function OwnValue(v: Json, key: string): Json
    requires HasOwn(v, key)
  {
    match v
    case Obj(fields) => Lookup(fields, key)
    case Arr(items) => if key == "length" then Num(|items|) else items[ArrayIndex(key).value]
    case Str(s) => if key == "length" then Num(|s|) else Str([s[ArrayIndex(key).value]])
    case _ => Undefined
  }

  /** The values `v[k]` that `for (const k in v)` visits, in order. */
  function ForInValues(v: Json): seq<Json> {
    match v
    case Obj(fields) => seq(|fields|, i requires 0 <= i < |fields| => fields[i].value)
    case Arr(items) => items
    case Str(s) => seq(|s|, i requires 0 <= i < |s| => Str([s[i]]))
    case _ => []
  }

  // ---------------------------------------------------------------- numbers

  function DigitChar(d: nat): char
    requires d < 10
  {
    "0123456789"[d]
  }

  predicate IsDigit(c: char) {
    '0' <= c <= '9'
  }

  function DigitValue(c: char): nat
    requires IsDigit(c)
  {
    (c as int - '0' as int) as nat
  }

  /** Decimal digits of a natural number, most significant first. */
  function Digits(n: nat): (s: string)
    ensures |s| >= 1
    ensures forall k :: 0 <= k < |s| ==> IsDigit(s[k])
    ensures s[0] == '0' ==> n == 0 && |s| == 1
    decreases n
  {
    if n < 10 then [DigitChar(n)] else Digits(n / 10) + [DigitChar(n % 10)]
  }

  lemma DigitRoundTrip(d: nat)
    requires d < 10
    ensures IsDigit(DigitChar(d)) && DigitValue(DigitChar(d)) == d
  {
  }

  /** Value of a string of decimal digits. */
  function DecValue(ds: string): nat
    requires forall k :: 0 <= k < |ds| ==> IsDigit(ds[k])
  {
    if ds == [] then 0 else DecValue(ds[..|ds| - 1]) * 10 + DigitValue(ds[|ds| - 1])
  }

  lemma {:induction false} DecValueDigits(n: nat)
    ensures DecValue(Digits(n)) == n
    decreases n
  {
    if n >= 10 {
      var d := Digits(n / 10);
      var last := DigitChar(n % 10);
      DecValueDigits(n / 10);
      DigitRoundTrip(n % 10);
      var s := d + [last];
      assert s[..|s| - 1] == d && s[|s| - 1] == last;
    } else {
      DigitRoundTrip(n);
    }
  }

  /** Python's `f"{n}"` and JavaScript's `String(n)` for an integer. */
  function Decimal(n: int): string {
    if n < 0 then "-" + Digits(-n) else Digits(n)
  }

  /** `String(v)` for the primitive values; the text of an array or an
      object is not modelled (`None`). */
  function ToText(v: Json): Option<string> {
    match v
    case Undefined => Some("undefined")
    case Null => Some("null")
    case Bool(b) => Some(if b then "true" else "false")
    case Num(n) => Some(Decimal(n))
    case Str(s) => Some(s)
    case _ => None
  }

  /** Longest prefix of `s` made of characters satisfying `p`. */
  function PrefixWhile(s: string, p: char -> bool): (r: string)
    ensures |r| <= |s| && r == s[..|r|]
    ensures forall k :: 0 <= k < |r| ==> p(r[k])
    ensures |r| < |s| ==> !p(s[|r|])
  {
    if s == [] || !p(s[0]) then [] else [s[0]] + PrefixWhile(s[1..], p)
  }

  predicate IsHexDigit(c: char) {
    IsDigit(c) || 'a' <= c <= 'f' || 'A' <= c <= 'F'
  }

  function HexDigitValue(c: char): nat
    requires IsHexDigit(c)
  {
    if IsDigit(c) then DigitValue(c)
    else if 'a' <= c <= 'f' then (c as int - 'a' as int + 10) as nat
    else (c as int - 'A' as int + 10) as nat
  }

  function HexValue(hs: string): nat
    requires forall k :: 0 <= k < |hs| ==> IsHexDigit(hs[k])
  {
    if hs == [] then 0 else HexValue(hs[..|hs| - 1]) * 16 + HexDigitValue(hs[|hs| - 1])
  }

  /** The white space `parseInt` and `Number` skip: the ASCII ones, the
      byte-order mark, the line and paragraph separators and the Unicode
      space separators (category Zs). */
  predicate IsJsSpace(c: char) {
    c == ' ' || c == '\t' || c == '\n' || c == '\r' || c == '\U{B}' || c == '\U{C}'
    || c == '\U{FEFF}' || c == '\U{2028}' || c == '\U{2029}'
    || c == '\U{A0}' || c == '\U{1680}' || '\U{2000}' <= c <= '\U{200A}'
    || c == '\U{202F}' || c == '\U{205F}' || c == '\U{3000}'
  }

  function SkipSpace(s: string): (r: string)
    ensures |r| <= |s| && r == s[|s| - |r|..]
    ensures r == [] || !IsJsSpace(r[0])
  {
    if s != [] && IsJsSpace(s[0]) then SkipSpace(s[1..]) else s
  }

  /** White space dropped from the end, as `Number` does. */
  function SkipSpaceEnd(s: string): (r: string)
    ensures |r| <= |s| && r == s[..|r|]
    ensures r == [] || !IsJsSpace(r[|r| - 1])
  {
    if s != [] && IsJsSpace(s[|s| - 1]) then SkipSpaceEnd(s[..|s| - 1]) else s
  }

  /** The digits `parseInt` reads after the sign, as a magnitude. */
  function ParseMagnitude(u: string): Option<nat> {
    if |u| >= 2 && u[0] == '0' && (u[1] == 'x' || u[1] == 'X') then
      var hs := PrefixWhile(u[2..], IsHexDigit);
      if hs == [] then None else Some(HexValue(hs))
    else
      var ds := PrefixWhile(u, IsDigit);
      if ds == [] then None else Some(DecValue(ds))
  }

  /** `parseInt(s)` with no radix: skip white space, an optional sign, then
      hexadecimal digits after `0x`/`0X` or else decimal digits, as many as
      there are. `None` stands for NaN. */
  function ParseInt(s: string): Option<int> {
    ParseSigned(SkipSpace(s))
  }

  /** An optional sign, then the magnitude. */
  function ParseSigned(t: string): Option<int> {
    if |t| > 0 && t[0] == '-' then
      match ParseMagnitude(t[1..])
      case None => None
      case Some(m) => Some(-(m as int))
    else if |t| > 0 && t[0] == '+' then
      match ParseMagnitude(t[1..])
      case None => None
      case Some(m) => Some(m)
    else
      match ParseMagnitude(t)
      case None => None
      case Some(m) => Some(m)
  }

  lemma MagnitudeOfDigits(n: nat)
    ensures ParseMagnitude(Digits(n)) == Some(n)
  {
    var d := Digits(n);
    DecValueDigits(n);
    var p := PrefixWhile(d, IsDigit);
    assert |p| == |d|;
    assert p == d;
  }

  /** `parseInt` reads back every integer that `String` writes. */
  lemma ParseIntDecimal(n: int)
    ensures ParseInt(Decimal(n)) == Some(n)
  {
    var m: nat := if n < 0 then -n else n;
    MagnitudeOfDigits(m);
    ParseIntSigned(Digits(m), m);
  }

  /** Digits with no space before them, bare or after a minus sign. */
  lemma ParseIntSigned(d: string, m: nat)
    requires d != [] && IsDigit(d[0]) && ParseMagnitude(d) == Some(m)
    ensures ParseInt(d) == Some(m)
    ensures ParseInt("-" + d) == Some(-(m as int))
  {
    NoSpaceToSkip(d);
    NoSpaceToSkip("-" + d);
    ParseMinus(d, m);
  }

  lemma NoSpaceToSkip(s: string)
    requires s != [] && !IsJsSpace(s[0])
    ensures SkipSpace(s) == s
  {
  }

  lemma NoSpaceAtEnd(s: string)
    requires s != [] && !IsJsSpace(s[|s| - 1])
    ensures SkipSpaceEnd(s) == s
  {
  }

  lemma ParseMinus(d: string, m: nat)
    requires ParseMagnitude(d) == Some(m)
    ensures ParseSigned("-" + d) == Some(-(m as int))
  {
    assert ("-" + d)[1..] == d;
  }

  // ------------------------------------------------------- slices and names

  /** How `slice` reads one of its index arguments: negative counts from
      the end, and the result is clamped to `[0, len]`. */
  function SliceIndex(i: int, len: nat): (r: nat)
    ensures r <= len
  {
    if i < 0 then (if len + i < 0 then 0 else len + i) else if i > len then len else i
  }

  /** `s.slice(start, end)` */
  function Slice<T>(s: seq<T>, start: int, end: int): seq<T> {
    var from := SliceIndex(start, |s|);
    var to := SliceIndex(end, |s|);
    if from < to then s[from..to] else []
  }

  /** `s.lastIndexOf(c)`, -1 when `c` does not occur. */
  function LastIndexOf(s: string, c: char): (r: int)
    ensures -1 <= r < |s|
    ensures r >= 0 ==> s[r] == c
    ensures forall k :: r < k < |s| ==> s[k] != c
  {
    if s == [] then -1
    else if s[|s| - 1] == c then |s| - 1
    else LastIndexOf(s[..|s| - 1], c)
  }

  /** `s.substring(start)`: the start is clamped to `[0, |s|]`. */
  function Substring(s: string, start: int): string {
    if start <= 0 then s else if start >= |s| then [] else s[start..]
  }

  // --------------------------------------------------------------- split

  predicate OccursAt(s: string, sep: string, i: int) {
    0 <= i && i + |sep| <= |s| && s[i..i + |sep|] == sep
  }

  ghost predicate Contains(s: string, sep: string) {
    exists i :: OccursAt(s, sep, i)
  }

  /** An occurrence after the first character is an occurrence in the
      rest of the string, one position earlier. */
  lemma OccursShift(s: string, sep: string)
    requires |s| > 0
    ensures forall j :: 0 < j ==> (OccursAt(s, sep, j) <==> OccursAt(s[1..], sep, j - 1))
  {
    forall j | 0 < j
      ensures OccursAt(s, sep, j) <==> OccursAt(s[1..], sep, j - 1)
    {
      if j + |sep| <= |s| {
        var here := s[j..j + |sep|];
        var there := s[1..][j - 1..j - 1 + |sep|];
        forall t | 0 <= t < |sep|
          ensures here[t] == there[t]
        {
        }
        assert here == there;
      }
    }
  }

  /** `s.indexOf(sep)` */
  function IndexOf(s: string, sep: string): (r: Option<nat>)
    requires |sep| > 0
    ensures r.Some? ==> OccursAt(s, sep, r.value)
    ensures r.Some? ==> forall j :: 0 <= j < r.value ==> !OccursAt(s, sep, j)
    ensures r.None? ==> !Contains(s, sep)
  {
    if |s| < |sep| then None
    else if s[..|sep|] == sep then Some(0)
    else
      assert !OccursAt(s, sep, 0);
      OccursShift(s, sep);
      match IndexOf(s[1..], sep)
      case None => None
      case Some(k) => Some(k + 1)
  }

  /** `s.split(sep)` for a non-empty separator. */
  function Split(s: string, sep: string): (parts: seq<string>)
    requires |sep| > 0
    ensures |parts| >= 1
    ensures forall k :: 0 <= k < |parts| ==> !Contains(parts[k], sep)
    decreases |s|
  {
    match IndexOf(s, sep)
    case None => [s]
    case Some(i) =>
      assert !Contains(s[..i], sep) by {
        forall j | OccursAt(s[..i], sep, j) ensures false {
          assert s[..i][j..j + |sep|] == s[j..j + |sep|];
          assert OccursAt(s, sep, j);
        }
      }
      [s[..i]] + Split(s[i + |sep|..], sep)
  }

  /** `parts.join(sep)` */
  function Join(parts: seq<string>, sep: string): string
    decreases |parts|
  {
    if parts == [] then ""
    else if |parts| == 1 then parts[0]
    else parts[0] + sep + Join(parts[1..], sep)
  }

  /** Splitting loses nothing: joining the parts gives the string back. */
  lemma {:induction false} JoinSplit(s: string, sep: string)
    requires |sep| > 0
    ensures Join(Split(s, sep), sep) == s
    decreases |s|
  {
    match IndexOf(s, sep)
    case None =>
    case Some(i) =>
      var rest := s[i + |sep|..];
      JoinSplit(rest, sep);
      JoinCons(s[..i], Split(rest, sep), sep);
      AroundOccurrence(s, sep, i);
  }

  lemma JoinCons(a: string, tail: seq<string>, sep: string)
    requires |tail| >= 1
    ensures Join([a] + tail, sep) == a + sep + Join(tail, sep)
  {
    assert ([a] + tail)[1..] == tail;
  }

  lemma AroundOccurrence(s: string, sep: string, i: int)
    requires OccursAt(s, sep, i)
    ensures s == s[..i] + sep + s[i + |sep|..]
  {
    assert s[i..i + |sep|] == sep;
    assert s == s[..i] + s[i..i + |sep|] + s[i + |sep|..];
  }

  lemma ContainsChar(s: string, c: char)
    ensures Contains(s, [c]) <==> c in s
  {
    if c in s {
      var k :| 0 <= k < |s| && s[k] == c;
      assert OccursAt(s, [c], k);
    }
    if Contains(s, [c]) {
      var k :| OccursAt(s, [c], k);
      assert s[k] == s[k..k + 1][0] == c;
    }
  }

  /** Splitting `a c b` at the single character `c`, when neither side
      holds a `c`, gives back exactly the two sides. */
  lemma SplitAtOnly(a: string, c: char, b: string)
    requires c !in a && c !in b
    ensures Split(a + [c] + b, [c]) == [a, b]
  {
    var s := a + [c] + b;
    ContainsChar(a, c);
    assert OccursAt(s, [c], |a|);
    match IndexOf(s, [c])
    case None =>
    case Some(i) =>
      assert i <= |a|;
      assert s[i] == c by { assert s[i..i + 1] == [c]; }
      assert forall k :: 0 <= k < |a| ==> s[k] == a[k];
      assert i == |a|;
      assert s[..i] == a;
      assert s[i + 1..] == b;
      ContainsChar(b, c);
      assert IndexOf(b, [c]).None?;
  }

  // ------------------------------------------------- loose equality

  /** `String(x)` is empty for an element of an array being joined:
      `null`, `undefined`, `''`, and arrays whose own join is empty. An
      array joins its elements with `,`, so only an empty array or one
      with a single such element joins to `''`. */
  predicate ElementTextEmpty(v: Json) {
    match v
    case Undefined => true
    case Null => true
    case Str(s) => s == ""
    case Arr(items) => |items| == 0 || (|items| == 1 && ElementTextEmpty(items[0]))
    case _ => false
  }

  /** `v == ''`: numbers and booleans compare as the number 0, arrays by
      their joined text, other objects never, `null` and `undefined`
      never. */
  predicate LooseEqualsEmpty(v: Json) {
    match v
    case Undefined => false
    case Null => false
    case Bool(b) => !b
    case Num(n) => n == 0
    case Str(s) => s == ""
    case Arr(items) => |items| == 0 || (|items| == 1 && ElementTextEmpty(items[0]))
    case Obj(_) => false
  }

  /** Length of the run of decimal digits at the start of `s`. */
  function DigitRun(s: string): (n: nat)
    ensures n <= |s| && forall k :: 0 <= k < n ==> IsDigit(s[k])
    ensures n < |s| ==> !IsDigit(s[n])
  {
    if s != [] && IsDigit(s[0]) then 1 + DigitRun(s[1..]) else 0
  }

  /** `0x`, `0o` or `0b` (either case) followed by digits of value 1:
      zeros, then a final `1`. A sign is not allowed before the prefix. */
  predicate RadixOne(t: string) {
    |t| >= 3 && t[0] == '0' && IsRadixMark(t[1]) && t[|t| - 1] == '1'
    && forall k :: 2 <= k < |t| - 1 ==> t[k] == '0'
  }

  predicate IsRadixMark(c: char) {
    c == 'x' || c == 'X' || c == 'o' || c == 'O' || c == 'b' || c == 'B'
  }

  /** The exponent part of a decimal literal: nothing (0), or `e`/`E`, an
      optional sign and one or more digits. `None` when `s` is neither. */
  function Exponent(s: string): Option<int> {
    if s == [] then Some(0)
    else if s[0] != 'e' && s[0] != 'E' then None
    else
      var d := if |s| > 1 && (s[1] == '+' || s[1] == '-') then s[2..] else s[1..];
      if d == [] || DigitRun(d) != |d| then None
      else Some(if |s| > 1 && s[1] == '-' then -(DecValue(d) as int) else DecValue(d))
  }

  /** `m * 10^x == 1` for a natural `m`. */
  predicate ScaledIsOne(m: nat, x: int) {
    if x >= 0 then m == 1 && x == 0 else m == Pow10(-x)
  }

  function Pow10(n: nat): (r: nat)
    ensures r >= 1
  {
    if n == 0 then 1 else 10 * Pow10(n - 1)
  }

  /** A decimal literal cut into its digits before the point, its digits
      after the point and what follows them. */
  function DecimalParts(u: string): (r: (string, string, string))
    ensures DigitRun(r.0) == |r.0| && DigitRun(r.1) == |r.1|
  {
    var whole := u[..DigitRun(u)];
    var rest := u[DigitRun(u)..];
    if rest != [] && rest[0] == '.' then
      var frac := rest[1..][..DigitRun(rest[1..])];
      RunOfDigits(whole);
      RunOfDigits(frac);
      (whole, frac, rest[1 + |frac|..])
    else
      RunOfDigits(whole);
      (whole, [], rest)
  }

  lemma RunOfDigits(s: string)
    requires forall k :: 0 <= k < |s| ==> IsDigit(s[k])
    ensures DigitRun(s) == |s|
  {
  }

  /** An unsigned decimal literal, `digits[.digits][exponent]` with at
      least one digit before the exponent, whose exact value is 1. */
  predicate DecimalOne(u: string) {
    var (whole, frac, after) := DecimalParts(u);
    |whole| + |frac| > 0
    && match Exponent(after)
       case None => false
       case Some(e) => ScaledIsOne(DecValue(whole + frac), e - |frac|)
  }

  /** A string that `Number` converts to 1: white space around either a
      binary, octal or hexadecimal literal of value 1, or an optional `+`
      and a decimal literal of value 1 (`1`, `01`, `1.0`, `.1e1`, `10e-1`). */
  predicate TextIsOne(s: string) {
    var t := SkipSpaceEnd(SkipSpace(s));
    RadixOne(t) || DecimalOne(if |t| > 0 && t[0] == '+' then t[1..] else t)
  }

  /** A literal `whole.frac` without exponent is one iff its digits, read
      as an integer, are `10^|frac|`. */
  lemma DecimalOneWithDot(whole: string, frac: string)
    requires DigitRun(whole) == |whole| && DigitRun(frac) == |frac| && |whole| + |frac| > 0
    ensures DecimalOne(whole + "." + frac) <==> DecValue(whole + frac) == Pow10(|frac|)
  {
    var u := whole + "." + frac;
    assert u[..|whole|] == whole && u[|whole|] == '.';
    assert DigitRun(u) == |whole|;
    var rest := u[|whole|..];
    assert rest != [] && rest[0] == '.';
    assert rest[1..] == frac && frac[..|frac|] == frac;
    assert rest[1 + |frac|..] == [];
    assert DecimalParts(u) == (whole, frac, []);
  }

  /** A string of decimal digits converts to 1 exactly when its value is 1. */
  lemma DigitTextIsOne(s: string)
    requires s != [] && forall k :: 0 <= k < |s| ==> IsDigit(s[k])
    ensures TextIsOne(s) <==> DecValue(s) == 1
  {
    NoSpaceToSkip(s);
    NoSpaceAtEnd(s);
    var t := SkipSpaceEnd(SkipSpace(s));
    assert t == s;
    assert t[0] != '+' by { assert IsDigit(s[0]); }
    assert !RadixOne(t) by {
      if |t| >= 3 {
        assert IsDigit(t[1]);
      }
    }
    DigitsAreDecimal(s);
  }

  lemma DigitsAreDecimal(s: string)
    requires forall k :: 0 <= k < |s| ==> IsDigit(s[k])
    ensures DecimalOne(s) <==> s != [] && DecValue(s) == 1
  {
    RunOfDigits(s);
    assert s[..|s|] == s && s[|s|..] == [];
    assert DecimalParts(s) == (s, [], []);
    assert s + [] == s;
  }

  /** `Number("1.0")` is 1. */
  lemma DotZeroIsOne()
    ensures TextIsOne("1.0")
  {
    NoSpaceToSkip("1.0");
    NoSpaceAtEnd("1.0");
    OneDotZero();
  }

  lemma OneDotZero()
    ensures DecimalOne("1.0")
  {
    assert "1"[1..] == [] && "0"[1..] == [];
    DecimalOneWithDot("1", "0");
    assert "1" + "." + "0" == "1.0";
    TenIsTen();
  }

  lemma TenIsTen()
    ensures DecValue("1" + "0") == 10
  {
    assert ("1" + "0")[..1] == "1" && "1"[..0] == [];
  }

  /** `Number("0x1")` is 1. */
  lemma HexOneIsOne()
    ensures TextIsOne("0x1")
  {
    NoSpaceToSkip("0x1");
    NoSpaceAtEnd("0x1");
    assert RadixOne("0x1");
  }

  /** `String(x)` of an array element converts to the number 1. */
  predicate ElementIsOne(v: Json) {
    match v
    case Num(n) => n == 1
    case Str(s) => TextIsOne(s)
    case Arr(items) => |items| == 1 && ElementIsOne(items[0])
    case _ => false
  }

  /** `v == true`: the value converts to the number 1. */
  predicate LooseEqualsTrue(v: Json) {
    match v
    case Undefined => false
    case Null => false
    case Bool(b) => b
    case Num(n) => n == 1
    case Str(s) => TextIsOne(s)
    case Arr(items) => |items| == 1 && ElementIsOne(items[0])
    case Obj(_) => false
  }

  // ------------------------------------------------ throwing operations

  /** How an expression ends: with a value, or by throwing a `TypeError`. */
  datatype Completion<T> = Normal(value: T) | Threw

  /** `v[key]`: reading a property of `null` or `undefined` throws. */
  function Member(v: Json, key: string): (r: Completion<Json>)
    ensures r.Threw? <==> Nullish(v)
  {
    if Nullish(v) then Threw else Normal(Get(v, key))
  }

  /** `v[k1][k2]...`: every step but the last must reach a value. */
  function StrictPath(v: Json, keys: seq<string>): Completion<Json>
    decreases |keys|
  {
    if keys == [] then Normal(v)
    else match Member(v, keys[0])
      case Threw => Threw
      case Normal(w) => StrictPath(w, keys[1..])
  }

  /** `items.map(f)` where `f` may throw: the first throw ends it. */
  function MapAll<T>(items: seq<Json>, f: Json -> Completion<T>): (r: Completion<seq<T>>)
    ensures r.Normal? <==> forall i :: 0 <= i < |items| ==> f(items[i]).Normal?
    ensures r.Normal? ==> |r.value| == |items|
    ensures r.Normal? ==> forall i :: 0 <= i < |items| ==> r.value[i] == f(items[i]).value
  {
    if items == [] then Normal([])
    else match f(items[0])
      case Threw => Threw
      case Normal(x) =>
        match MapAll(items[1..], f)
        case Threw => Threw
        case Normal(xs) => Normal([x] + xs)
  }

  /** `v?.map(f)`: `undefined` (here `None`) for `null` and `undefined`,
      a `TypeError` for anything but an array. */
  function OptionalMap<T>(v: Json, f: Json -> Completion<T>): (r: Completion<Option<seq<T>>>)
    ensures Nullish(v) ==> r == Normal(None)
    ensures !Nullish(v) && !v.Arr? ==> r.Threw?
    ensures v.Arr? ==> (r.Normal? <==> MapAll(v.items, f).Normal?)
  {
    if Nullish(v) then Normal(None)
    else if !v.Arr? then Threw
    else match MapAll(v.items, f)
      case Threw => Threw
      case Normal(xs) => Normal(Some(xs))
  }
}

