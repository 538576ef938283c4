/** The JavaScript values the workflow engine passes between nodes, and the
    few pieces of JavaScript semantics the engine relies on: truthiness,
    `typeof`, destructuring defaults, object spread, `String.prototype.trim`,
    `split` and `join`. */
module JsValues {

  /** A JSON-compatible JavaScript value. `Undefined` is what a missing map
      entry or array slot reads as. Numbers are reals (NaN is not modelled);
      an object is a map from property names to values. */
  datatype Value =
    | Undefined
    | Null
    | Bool(b: bool)
    | Num(n: real)
    | Str(s: string)
    | Arr(items: seq<Value>)
    | Obj(fields: map<string, Value>)

  /** JavaScript truthiness: `undefined`, `null`, `false`, `0` and `""` are
      falsy; every array and every object is truthy. */
  predicate Truthy(v: Value) {
    match v
    case Undefined => false
    case Null => false
    case Bool(b) => b
    case Num(n) => n != 0.0
    case Str(s) => s != ""
    case Arr(_) => true
    case Obj(_) => true
  }

  /** The `typeof` operator. */
  function TypeOf(v: Value): (r: string)
    ensures r == "object" <==> v.Null? || v.Arr? || v.Obj?
  {
    match v
    case Undefined => "undefined"
    case Null => "object"
    case Bool(_) => "boolean"
    case Num(_) => "number"
    case Str(_) => "string"
    case Arr(_) => "object"
    case Obj(_) => "object"
  }

  /** Reading a property of a plain object: a missing key reads as `undefined`. */
  function Field(record: map<string, Value>, key: string): (r: Value)
    ensures key !in record ==> r == Undefined
    ensures key in record ==> r == record[key]
  {
    if key in record then record[key] else Undefined
  }

  /** A destructuring default `{ x = d } = obj`: the default replaces only
      `undefined`, never `null` or another falsy value. */
  function WithDefault(v: Value, d: Value): (r: Value)
    ensures v.Undefined? ==> r == d
    ensures !v.Undefined? ==> r == v
  {
    if v.Undefined? then d else v
  }

  // ---------------------------------------------------------------------
  // String.prototype.trim

  /** The characters `trim` removes: ECMAScript WhiteSpace and LineTerminator. */
  predicate IsSpace(c: char) {
    || c == '\t' || c == '\n' || c == '\U{000B}' || c == '\U{000C}' || c == '\r'
    || c == ' ' || c == '\U{00A0}' || c == '\U{1680}'
    || ('\U{2000}' <= c <= '\U{200A}')
    || c == '\U{2028}' || c == '\U{2029}' || c == '\U{202F}' || c == '\U{205F}'
    || c == '\U{3000}' || c == '\U{FEFF}'
  }

  /** `s` with its leading white space removed. */
  function TrimStart(s: string): (r: string)
    ensures |r| <= |s| && r == s[|s| - |r|..]
    ensures forall i :: 0 <= i < |s| - |r| ==> IsSpace(s[i])
    ensures r == [] || !IsSpace(r[0])
  {
    if |s| > 0 && IsSpace(s[0]) then TrimStart(s[1..]) else s
  }

  /** `s` with its trailing white space removed. */
  function TrimEnd(s: string): (r: string)
    ensures |r| <= |s| && r == s[..|r|]
    ensures forall i :: |r| <= i < |s| ==> IsSpace(s[i])
    ensures r == [] || !IsSpace(r[|r| - 1])
  {
    if |s| > 0 && IsSpace(s[|s| - 1]) then TrimEnd(s[..|s| - 1]) else s
  }

  /** `s.trim()`: the infix of `s` left once white space is removed at both
      ends; everything removed is white space and neither end of the result is. */
  function Trim(s: string): (r: string)
    ensures var i := |s| - |TrimStart(s)|;
      && i + |r| <= |s|
      && r == s[i..i + |r|]
      && (forall k :: 0 <= k < i ==> IsSpace(s[k]))
      && (forall k :: i + |r| <= k < |s| ==> IsSpace(s[k]))
    ensures r == [] || (!IsSpace(r[0]) && !IsSpace(r[|r| - 1]))
  {
    var t := TrimStart(s);
    var r := TrimEnd(t);
    assert r == [] || r[0] == t[0];
    r
  }

  // ---------------------------------------------------------------------
  // String.prototype.split and Array.prototype.join with a one-character
  // separator

  /** `s.split(sep)`: the pieces between the occurrences of `sep`, in order.
      There is always at least one piece (`"".split(sep)` is `[""]`). */
  function Split(s: string, sep: char): (parts: seq<string>)
    ensures |parts| >= 1
    ensures forall p :: p in parts ==> sep !in p
    decreases |s|
  {
    if |s| == 0 then [""]
    else
      var rest := Split(s[1..], sep);
      if s[0] == sep then [""] + rest
      else [[s[0]] + rest[0]] + rest[1..]
  }

  /** `parts.join(sep)`. */
  function Join(parts: seq<string>, sep: char): string
    requires |parts| >= 1
    decreases |parts|
  {
    if |parts| == 1 then parts[0] else parts[0] + [sep] + Join(parts[1..], sep)
  }

  /** Joining the pieces of a split gives back the original string. */
  lemma {:induction false} JoinSplit(s: string, sep: char)
    ensures Join(Split(s, sep), sep) == s
    decreases |s|
  {
    if |s| > 0 {
      var rest := Split(s[1..], sep);
      JoinSplit(s[1..], sep);
      if s[0] == sep {
        assert ([""] + rest)[1..] == rest;
      } else {
        var parts := [[s[0]] + rest[0]] + rest[1..];
        if |rest| == 1 {
          assert Join(parts, sep) == [s[0]] + rest[0];
        } else {
          assert parts[1..] == rest[1..];
          assert Join(rest, sep) == rest[0] + [sep] + Join(rest[1..], sep);
        }
        assert s == [s[0]] + s[1..];
      }
    }
  }

  /** Splitting a separator-free prefix gluing onto the first piece. */
  lemma {:induction false} SplitFreePrefix(p: string, t: string, sep: char)
    requires sep !in p
    ensures Split(p + t, sep) == [p + Split(t, sep)[0]] + Split(t, sep)[1..]
    decreases |p|
  {
    if |p| > 0 {
      SplitFreePrefix(p[1..], t, sep);
      assert (p + t)[1..] == p[1..] + t;
      assert (p + t)[0] == p[0];
      assert [p[0]] + (p[1..] + Split(t, sep)[0]) == p + Split(t, sep)[0];
    } else {
      assert p + t == t;
      assert p + Split(t, sep)[0] == Split(t, sep)[0];
      assert Split(t, sep) == [Split(t, sep)[0]] + Split(t, sep)[1..];
    }
  }

  /** Splitting a join of separator-free pieces gives back the pieces. */
  lemma {:induction false} SplitJoin(parts: seq<string>, sep: char)
    requires |parts| >= 1
    requires forall p :: p in parts ==> sep !in p
    ensures Split(Join(parts, sep), sep) == parts
    decreases |parts|
  {
    if |parts| == 1 {
      SplitFreePrefix(parts[0], "", sep);
      assert parts[0] + "" == parts[0];
    } else {
      var tail := Join(parts[1..], sep);
      SplitJoin(parts[1..], sep);
      assert parts[0] + [sep] + tail == parts[0] + ([sep] + tail);
      SplitFreePrefix(parts[0], [sep] + tail, sep);
      assert ([sep] + tail)[1..] == tail;
      assert Split([sep] + tail, sep) == [""] + parts[1..];
      assert parts[0] + "" == parts[0];
      assert parts == [parts[0]] + parts[1..];
    }
  }

  // ---------------------------------------------------------------------
  // Object spread `{ ...v }`

  /** The decimal digits of `n`, as `String(n)` writes an array index. */
  function NatToString(n: nat): (r: string)
    ensures |r| >= 1
    ensures forall k :: 0 <= k < |r| ==> '0' <= r[k] <= '9'
  {
    if n < 10 then [Digit(n)]
    else NatToString(n / 10) + [Digit(n % 10)]
  }

  /** The character of the decimal digit `d`. */
  function Digit(d: nat): (c: char)
    requires d < 10
    ensures '0' <= c <= '9' && c as int - '0' as int == d
  {
    ('0' as int + d) as char
  }

  /** The number a string of decimal digits denotes, as `Number(s)` reads
      an array index back. */
  function DecimalValue(s: string): nat {
    if |s| == 0 then 0
    else
      var c := s[|s| - 1];
      10 * DecimalValue(s[..|s| - 1]) + (if '0' <= c <= '9' then c as int - '0' as int else 0)
  }

  /** Reading back the decimal form of `n` gives `n`. */
  lemma {:induction false} DecimalValueNatToString(n: nat)
    ensures DecimalValue(NatToString(n)) == n
  {
    var s := NatToString(n);
    if n >= 10 {
      DecimalValueNatToString(n / 10);
      assert s[..|s| - 1] == NatToString(n / 10);
    }
  }

  /** Distinct indices have distinct property names. */
  lemma NatToStringInjective(a: nat, b: nat)
    requires a != b
    ensures NatToString(a) != NatToString(b)
  {
    DecimalValueNatToString(a);
    DecimalValueNatToString(b);
  }

  /** The property names of the indices `0 .. n-1`. */
  ghost function IndexKeys(n: nat): set<string> {
    set i | 0 <= i < n :: NatToString(i)
  }

  lemma IndexKeysStep(n: nat)
    ensures IndexKeys(n + 1) == IndexKeys(n) + {NatToString(n)}
  {
    forall k | k in IndexKeys(n + 1) ensures k in IndexKeys(n) + {NatToString(n)} {
      var i :| 0 <= i < n + 1 && k == NatToString(i);
      if i < n { assert k in IndexKeys(n); }
    }
    assert NatToString(n) in IndexKeys(n + 1);
  }

  /** Adding the last index to the record of the other items gives every
      index its own item. */
  lemma IndexRecordStep(items: seq<Value>, prev: map<string, Value>)
    requires |items| > 0
    requires forall i :: 0 <= i < |items| - 1 ==> NatToString(i) in prev && prev[NatToString(i)] == items[i]
    ensures var r := prev[NatToString(|items| - 1) := items[|items| - 1]];
      forall i :: 0 <= i < |items| ==> NatToString(i) in r && r[NatToString(i)] == items[i]
  {
    var n := |items| - 1;
    var r := prev[NatToString(n) := items[n]];
    forall i | 0 <= i < |items| ensures NatToString(i) in r && r[NatToString(i)] == items[i] {
      if i < n {
        NatToStringInjective(i, n);
        assert r[NatToString(i)] == prev[NatToString(i)];
      }
    }
  }

  /** The own enumerable properties of an array or string: index `i`, written
      in decimal, holds element `i`. */
  function IndexRecord(items: seq<Value>): (r: map<string, Value>)
    ensures r.Keys == IndexKeys(|items|)
    ensures forall k :: k in r ==> r[k] in items
  {
    if |items| == 0 then map[]
    else
      var n := |items| - 1;
      var prev := IndexRecord(items[..n]);
      assert forall x :: x in items[..n] ==> x in items;
      IndexKeysStep(n);
      prev[NatToString(n) := items[n]]
  }

  /** Index `i` of the record holds item `i`. */
  lemma {:induction false} IndexRecordValues(items: seq<Value>)
    ensures forall i :: 0 <= i < |items| ==> NatToString(i) in IndexRecord(items) && IndexRecord(items)[NatToString(i)] == items[i]
  {
    if |items| > 0 {
      var n := |items| - 1;
      IndexRecordValues(items[..n]);
      assert forall i :: 0 <= i < n ==> items[..n][i] == items[i];
      IndexRecordStep(items, IndexRecord(items[..n]));
    }
  }

  /** The characters of a string as one-character string values. */
  function CharValues(s: string): (r: seq<Value>)
    ensures |r| == |s|
    ensures forall i :: 0 <= i < |s| ==> r[i] == Str([s[i]])
  {
    seq(|s|, i requires 0 <= i < |s| => Str([s[i]]))
  }

  /** The properties `{ ...v }` copies: an object's own fields, the indices
      of an array or a string, and nothing for `null`, `undefined`, booleans
      and numbers. */
  function Spread(v: Value): (r: map<string, Value>)
    ensures v.Obj? ==> r == v.fields
    ensures v.Arr? ==> r.Keys == IndexKeys(|v.items|)
    ensures v.Arr? ==> forall i :: 0 <= i < |v.items| ==> NatToString(i) in r && r[NatToString(i)] == v.items[i]
    ensures v.Str? ==> r.Keys == IndexKeys(|v.s|)
    ensures v.Str? ==> forall i :: 0 <= i < |v.s| ==> NatToString(i) in r && r[NatToString(i)] == Str([v.s[i]])
    ensures !(v.Obj? || v.Arr? || v.Str?) ==> r == map[]
  {
    match v
    case Obj(m) => m
    case Arr(items) => IndexRecordValues(items); IndexRecord(items)
    case Str(s) => IndexRecordValues(CharValues(s)); IndexRecord(CharValues(s))
    case _ => map[]
  }
}
