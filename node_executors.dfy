/** The three node executors of the workflow engine (HTTP request, transform
    expression, filter), the header parser the HTTP executor uses, and the
    dispatch on a node's type. Whatever the engine hands to the JavaScript
    runtime (`fetch`, `JSON.parse`, `new Function`) is an oracle in `Host`. */
module NodeExecutors {
  import opened Wrappers
  import opened JsValues
  import opened WorkflowGraph

  /** The request the HTTP executor sends: `fetch(url, { method, headers })`. */
  datatype Request = Request(url: Value, httpMethod: Value, headers: map<string, Value>)

  /** What the HTTP executor keeps of a response: its status, its status
      text and its body as decoded by `response.json()`. */
  datatype Response = Response(status: Value, statusText: Value, data: Value)

  /** The runtime services the executors call:
      - `fetch`: sends a request and decodes the JSON body, or fails with the
        error message of the network or decoding failure;
      - `parseJson`: `JSON.parse`, `None` when it throws;
      - `compileCondition`: `new Function('item', 'return ' + condition)`,
        giving a per-item predicate that may itself throw, or a compile error;
      - `evalTransform`: compiles and runs `with (context) { return logic }`. */
  datatype Host = Host(
    fetch: Request -> Result<Response>,
    parseJson: string -> Option<Value>,
    compileCondition: Value -> Result<Value -> Result<Value>>,
    evalTransform: (Value, map<string, Value>) -> Result<Value>)

  /** The message of an error caught and thrown again with `context` in
      front of the original message. */
  function Rethrown(context: string, message: string): (r: string)
    ensures context <= r
  {
    context + message
  }

  /** `inputs[index]`: an index past the end reads as `undefined`. */
  function InputAt(inputs: seq<Value>, index: nat): (r: Value)
    ensures index < |inputs| ==> r == inputs[index]
    ensures index >= |inputs| ==> r == Undefined
  {
    if index < |inputs| then inputs[index] else Undefined
  }

  // ---------------------------------------------------------------------
  // parseHeaders

  /** What one line of a `Key: value` header block contributes: the trimmed
      text before its first colon and the trimmed text after it (colons
      included), when the line has a colon with something before it. */
  function LineEntry(line: string): Option<(string, string)> {
    var parts := Split(line, ':');
    if parts[0] != "" && |parts| > 1 then Some((Trim(parts[0]), Trim(Join(parts[1..], ':'))))
    else None
  }

  /** A line without a colon contributes nothing. */
  lemma LineEntryNoColon(line: string)
    requires ':' !in line
    ensures LineEntry(line) == None
  {
    SplitFreePrefix(line, "", ':');
    assert line + "" == line;
  }

  /** A line is cut at its first colon: the key is what precedes it, the
      value everything after it, both trimmed; a line starting with a colon
      contributes nothing. */
  lemma LineEntryFirstColon(line: string, i: nat)
    requires i < |line| && line[i] == ':' && ':' !in line[..i]
    ensures i == 0 ==> LineEntry(line) == None
    ensures i > 0 ==> LineEntry(line) == Some((Trim(line[..i]), Trim(line[i + 1..])))
  {
    var rest := line[i + 1..];
    assert line == line[..i] + ([':'] + rest);
    SplitFreePrefix(line[..i], [':'] + rest, ':');
    assert ([':'] + rest)[1..] == rest;
    assert Split([':'] + rest, ':') == [""] + Split(rest, ':');
    assert line[..i] + "" == line[..i];
    var parts := Split(line, ':');
    assert parts == [line[..i]] + Split(rest, ':');
    assert parts[1..] == Split(rest, ':');
    JoinSplit(rest, ':');
  }

  /** What each line contributes, line by line. */
  function LineEntries(lines: seq<string>): (r: seq<Option<(string, string)>>)
    ensures |r| == |lines|
    ensures forall i :: 0 <= i < |lines| ==> r[i] == LineEntry(lines[i])
  {
    seq(|lines|, i requires 0 <= i < |lines| => LineEntry(lines[i]))
  }

  /** The object the fallback parser builds from the lines' entries, one
      after another, so that a later entry overwrites an earlier one with
      the same key. */
  function Record(entries: seq<Option<(string, string)>>): map<string, Value> {
    if |entries| == 0 then map[]
    else
      var prev := Record(entries[..|entries| - 1]);
      match entries[|entries| - 1]
      case None => prev
      case Some(entry) => prev[entry.0 := Str(entry.1)]
  }

  /** The entry sets the property `k`. */
  ghost predicate Sets(entry: Option<(string, string)>, k: string) {
    entry.Some? && entry.value.0 == k
  }

  /** An entry that sets `k` puts it in the record. */
  lemma {:induction false} RecordHas(entries: seq<Option<(string, string)>>, k: string, i: nat)
    requires i < |entries| && Sets(entries[i], k)
    ensures k in Record(entries)
  {
    var n := |entries| - 1;
    if i < n {
      assert entries[..n][i] == entries[i];
      RecordHas(entries[..n], k, i);
    }
  }

  /** Every key of the record was set by some entry. */
  lemma {:induction false} RecordSource(entries: seq<Option<(string, string)>>, k: string) returns (i: nat)
    requires k in Record(entries)
    ensures i < |entries| && Sets(entries[i], k)
  {
    var n := |entries| - 1;
    if Sets(entries[n], k) {
      i := n;
    } else {
      i := RecordSource(entries[..n], k);
      assert entries[..n][i] == entries[i];
    }
  }

  /** The last entry that sets `k` gives its value. */
  lemma {:induction false} RecordLastWins(entries: seq<Option<(string, string)>>, k: string, i: nat)
    requires i < |entries| && Sets(entries[i], k)
    requires forall j :: i < j < |entries| ==> !Sets(entries[j], k)
    ensures k in Record(entries) && Record(entries)[k] == Str(entries[i].value.1)
  {
    var n := |entries| - 1;
    if i < n {
      var init := entries[..n];
      assert init[i] == entries[i];
      assert forall j :: i < j < n ==> init[j] == entries[j];
      RecordLastWins(init, k, i);
      assert !Sets(entries[n], k);
    }
  }

  /** `parseHeaders(headers)`: an object, an array or `null` as it is; a
      string as JSON when it parses, otherwise as `Key: value` lines; any
      other value as an empty object. */
  function HeadersValue(host: Host, headers: Value): Value {
    if TypeOf(headers) == "object" then headers
    else if headers.Str? then
      match host.parseJson(headers.s)
      case Some(v) => v
      case None => Obj(Record(LineEntries(Split(headers.s, '\n'))))
    else Obj(map[])
  }

  /** Header text that is not JSON is read line by line: a line that sets
      a header and is the last to set it gives its value. */
  lemma HeaderLines(host: Host, text: string, k: string, i: nat)
    requires host.parseJson(text).None?
    requires i < |Split(text, '\n')| && Sets(LineEntry(Split(text, '\n')[i]), k)
    requires forall j :: i < j < |Split(text, '\n')| ==> !Sets(LineEntry(Split(text, '\n')[j]), k)
    ensures HeadersValue(host, Str(text)).Obj?
    ensures k in HeadersValue(host, Str(text)).fields
    ensures HeadersValue(host, Str(text)).fields[k] == Str(LineEntry(Split(text, '\n')[i]).value.1)
  {
    var lines := Split(text, '\n');
    RecordLastWins(LineEntries(lines), k, i);
  }

  /** A header parsed from text that is not JSON was set by some line. */
  lemma HeaderLineSource(host: Host, text: string, k: string) returns (i: nat)
    requires host.parseJson(text).None?
    requires k in HeadersValue(host, Str(text)).fields
    ensures i < |Split(text, '\n')| && Sets(LineEntry(Split(text, '\n')[i]), k)
  {
    i := RecordSource(LineEntries(Split(text, '\n')), k);
  }

  /** `parseHeaders`, line loop and all. */
  method ParseHeaders(host: Host, headers: Value) returns (r: Value)
    ensures r == HeadersValue(host, headers)
  {
    if TypeOf(headers) == "object" {
      return headers;
    }
    if !headers.Str? {
      return Obj(map[]);
    }
    var parsed := host.parseJson(headers.s);
    if parsed.Some? {
      return parsed.value;
    }
    var result := ParseLines(Split(headers.s, '\n'));
    return Obj(result);
  }

  /** The fallback parser: each line in turn sets the property it names. */
  method ParseLines(lines: seq<string>) returns (result: map<string, Value>)
    ensures result == Record(LineEntries(lines))
  {
    ghost var entries := LineEntries(lines);
    result := map[];
    var i := 0;
    while i < |lines|
      invariant 0 <= i <= |lines|
      invariant result == Record(entries[..i])
    {
      var entry := LineEntry(lines[i]);
      assert entries[i] == entry;
      match entry {
        case None =>
        case Some(e) => result := result[e.0 := Str(e.1)];
      }
      assert entries[..i + 1][..i] == entries[..i];
      i := i + 1;
    }
    assert entries[..|lines|] == entries;
  }

  // ---------------------------------------------------------------------
  // executeHttpNode

  /** The headers a user configured, as `...parseHeaders(headers)` spreads
      them; a missing `headers` field defaults to `{}`. */
  function UserHeaders(host: Host, data: map<string, Value>): map<string, Value> {
    Spread(HeadersValue(host, WithDefault(Field(data, "headers"), Obj(map[]))))
  }

  /** The request an HTTP node sends: its `url`; its `method`, `GET` when
      missing; `Content-Type: application/json` unless the user's headers set
      `Content-Type` themselves, plus every user header unchanged. */
  function HttpRequest(host: Host, data: map<string, Value>): (r: Request)
    ensures r.url == Field(data, "url")
    ensures Field(data, "method").Undefined? ==> r.httpMethod == Str("GET")
    ensures !Field(data, "method").Undefined? ==> r.httpMethod == data["method"]
    ensures r.headers.Keys == UserHeaders(host, data).Keys + {"Content-Type"}
    ensures forall k :: k in UserHeaders(host, data) ==> r.headers[k] == UserHeaders(host, data)[k]
    ensures "Content-Type" !in UserHeaders(host, data) ==> r.headers["Content-Type"] == Str("application/json")
    ensures Field(data, "headers").Undefined? ==> r.headers == map["Content-Type" := Str("application/json")]
  {
    Request(
      Field(data, "url"),
      WithDefault(Field(data, "method"), Str("GET")),
      map["Content-Type" := Str("application/json")] + UserHeaders(host, data))
  }

  /** What an HTTP node produces: no request at all without a truthy `url`;
      otherwise `{ status, statusText, data }` of the response, or the
      request's failure. */
  function HttpOutcome(host: Host, data: map<string, Value>): (r: Result<Value>)
    ensures !Truthy(Field(data, "url")) ==> r == Err("HTTP node requires a URL")
    ensures Truthy(Field(data, "url")) ==> (r.Ok? <==> host.fetch(HttpRequest(host, data)).Ok?)
    ensures Truthy(Field(data, "url")) && r.Err? ==>
      r.error == Rethrown("HTTP request failed: ", host.fetch(HttpRequest(host, data)).error)
    ensures r.Ok? ==> var resp := host.fetch(HttpRequest(host, data)).value;
      r.value == Obj(map["status" := resp.status, "statusText" := resp.statusText, "data" := resp.data])
  {
    if !Truthy(Field(data, "url")) then Err("HTTP node requires a URL")
    else
      match host.fetch(HttpRequest(host, data))
      case Err(m) => Err(Rethrown("HTTP request failed: ", m))
      case Ok(resp) => Ok(Obj(map["status" := resp.status, "statusText" := resp.statusText, "data" := resp.data]))
  }

  /** `executeHttpNode`: the inputs are not used. */
  method ExecuteHttpNode(host: Host, node: Node) returns (r: Result<Value>)
    ensures r == HttpOutcome(host, node.data)
  {
    var url := Field(node.data, "url");
    if !Truthy(url) {
      return Err("HTTP node requires a URL");
    }
    var httpMethod := WithDefault(Field(node.data, "method"), Str("GET"));
    var parsed := ParseHeaders(host, WithDefault(Field(node.data, "headers"), Obj(map[])));
    var headers := map["Content-Type" := Str("application/json")] + Spread(parsed);
    var response := host.fetch(Request(url, httpMethod, headers));
    match response {
      case Err(m) => r := Err(Rethrown("HTTP request failed: ", m));
      case Ok(resp) =>
        r := Ok(Obj(map["status" := resp.status, "statusText" := resp.statusText, "data" := resp.data]));
    }
  }

  // ---------------------------------------------------------------------
  // executeTransformNode

  /** The `context` a transform expression is evaluated in: `inputs` bound
      to the input array and, for the source at position `i` whose input is
      not `undefined`, `$` followed by its id bound to that input; a later
      position overwrites an earlier one with the same id. */
  function TransformContext(inputs: seq<Value>, sourceIds: seq<string>): map<string, Value> {
    if |sourceIds| == 0 then map["inputs" := Arr(inputs)]
    else
      var n := |sourceIds| - 1;
      var prev := TransformContext(inputs, sourceIds[..n]);
      if InputAt(inputs, n) != Undefined then prev["$" + sourceIds[n] := inputs[n]] else prev
  }

  /** Position `i` binds a name in the context. */
  ghost predicate Binds(inputs: seq<Value>, sourceIds: seq<string>, i: int) {
    0 <= i < |sourceIds| && InputAt(inputs, i) != Undefined
  }

  lemma DollarNames(a: string, b: string)
    ensures "$" + a != "inputs"
    ensures "$" + a == "$" + b ==> a == b
  {
    assert ("$" + a)[0] == '$';
    if "$" + a == "$" + b {
      assert ("$" + a)[1..] == a && ("$" + b)[1..] == b;
    }
  }

  /** The context holds `inputs` and the `$id` names of the binding positions,
      and nothing else; `inputs` is the whole input array. */
  lemma {:induction false} TransformContextKeys(inputs: seq<Value>, sourceIds: seq<string>, k: string)
    ensures "inputs" in TransformContext(inputs, sourceIds)
    ensures TransformContext(inputs, sourceIds)["inputs"] == Arr(inputs)
    ensures k in TransformContext(inputs, sourceIds) <==>
      k == "inputs" || exists i :: Binds(inputs, sourceIds, i) && k == "$" + sourceIds[i]
  {
    if |sourceIds| > 0 {
      var n := |sourceIds| - 1;
      var init := sourceIds[..n];
      TransformContextKeys(inputs, init, k);
      DollarNames(sourceIds[n], sourceIds[n]);
      assert forall i :: 0 <= i < n ==> init[i] == sourceIds[i];
      if k in TransformContext(inputs, sourceIds) && k != "inputs" && k in TransformContext(inputs, init) {
        var i :| Binds(inputs, init, i) && k == "$" + init[i];
        assert Binds(inputs, sourceIds, i);
      }
      if exists i :: Binds(inputs, sourceIds, i) && k == "$" + sourceIds[i] {
        var i :| Binds(inputs, sourceIds, i) && k == "$" + sourceIds[i];
        if i < n {
          assert Binds(inputs, init, i);
        }
      }
    }
  }

  /** A binding position whose id no later binding position repeats gives
      its input to `$id`. */
  lemma {:induction false} TransformContextLastWins(inputs: seq<Value>, sourceIds: seq<string>, i: nat)
    requires Binds(inputs, sourceIds, i)
    requires forall j :: i < j < |sourceIds| && Binds(inputs, sourceIds, j) ==> sourceIds[j] != sourceIds[i]
    ensures "$" + sourceIds[i] in TransformContext(inputs, sourceIds)
    ensures TransformContext(inputs, sourceIds)["$" + sourceIds[i]] == inputs[i]
  {
    var n := |sourceIds| - 1;
    var init := sourceIds[..n];
    if i < n {
      assert init[i] == sourceIds[i];
      TransformContextLastWins(inputs, init, i);
      if Binds(inputs, sourceIds, n) {
        DollarNames(sourceIds[n], sourceIds[i]);
      }
    }
  }

  /** When every id is paired with one input wherever it occurs (as the
      coordinator's inputs are), each binding position's `$id` holds its input. */
  lemma {:induction false} TransformContextConsistent(inputs: seq<Value>, sourceIds: seq<string>, i: nat)
    requires Binds(inputs, sourceIds, i)
    requires forall a, b :: 0 <= a < |sourceIds| && 0 <= b < |sourceIds| && sourceIds[a] == sourceIds[b] ==>
      InputAt(inputs, a) == InputAt(inputs, b)
    ensures "$" + sourceIds[i] in TransformContext(inputs, sourceIds)
    ensures TransformContext(inputs, sourceIds)["$" + sourceIds[i]] == inputs[i]
  {
    var n := |sourceIds| - 1;
    var init := sourceIds[..n];
    if i < n {
      assert init[i] == sourceIds[i];
      assert forall a :: 0 <= a < n ==> init[a] == sourceIds[a];
      TransformContextConsistent(inputs, init, i);
      if Binds(inputs, sourceIds, n) {
        DollarNames(sourceIds[n], sourceIds[i]);
      }
    }
  }

  /** Builds the context as the `forEach` over the source ids does. */
  method BuildContext(inputs: seq<Value>, sourceIds: seq<string>) returns (context: map<string, Value>)
    ensures context == TransformContext(inputs, sourceIds)
  {
    context := map["inputs" := Arr(inputs)];
    var i := 0;
    while i < |sourceIds|
      invariant 0 <= i <= |sourceIds|
      invariant context == TransformContext(inputs, sourceIds[..i])
    {
      if i < |inputs| && inputs[i] != Undefined {
        context := context["$" + sourceIds[i] := inputs[i]];
      }
      assert sourceIds[..i + 1][..i] == sourceIds[..i];
      i := i + 1;
    }
    assert sourceIds[..|sourceIds|] == sourceIds;
  }

  /** What a transform node produces: without a truthy `transformLogic`, its
      first input when that is truthy and `null` otherwise; with one, the
      expression's value in the context, or its failure. */
  function TransformOutcome(host: Host, data: map<string, Value>, inputs: seq<Value>, sourceIds: seq<string>): (r: Result<Value>)
    ensures !Truthy(Field(data, "transformLogic")) ==> r.Ok?
    ensures !Truthy(Field(data, "transformLogic")) && Truthy(InputAt(inputs, 0)) ==> r.value == inputs[0]
    ensures !Truthy(Field(data, "transformLogic")) && !Truthy(InputAt(inputs, 0)) ==> r.value == Null
    ensures r.Err? ==> "Transform failed: " <= r.error
    ensures Truthy(Field(data, "transformLogic")) ==>
      (r.Ok? <==> host.evalTransform(data["transformLogic"], TransformContext(inputs, sourceIds)).Ok?)
    ensures Truthy(Field(data, "transformLogic")) && r.Ok? ==>
      r.value == host.evalTransform(data["transformLogic"], TransformContext(inputs, sourceIds)).value
    ensures Truthy(Field(data, "transformLogic")) && r.Err? ==>
      r.error == Rethrown("Transform failed: ", host.evalTransform(data["transformLogic"], TransformContext(inputs, sourceIds)).error)
  {
    var logic := Field(data, "transformLogic");
    if !Truthy(logic) then Ok(if Truthy(InputAt(inputs, 0)) then inputs[0] else Null)
    else
      match host.evalTransform(logic, TransformContext(inputs, sourceIds))
      case Ok(v) => Ok(v)
      case Err(m) => Err(Rethrown("Transform failed: ", m))
  }

  /** `executeTransformNode`. */
  method ExecuteTransformNode(host: Host, node: Node, inputs: seq<Value>, sourceIds: seq<string>) returns (r: Result<Value>)
    ensures r == TransformOutcome(host, node.data, inputs, sourceIds)
  {
    var logic := Field(node.data, "transformLogic");
    if !Truthy(logic) {
      var first := InputAt(inputs, 0);
      return Ok(if Truthy(first) then first else Null);
    }
    var context := BuildContext(inputs, sourceIds);
    var value := host.evalTransform(logic, context);
    match value {
      case Ok(v) => r := Ok(v);
      case Err(m) => r := Err(Rethrown("Transform failed: ", m));
    }
  }

  // ---------------------------------------------------------------------
  // executeFilterNode

  /** The predicate keeps `x`: it returns a truthy value for it. */
  ghost predicate Kept(keep: Value -> Result<Value>, x: Value) {
    keep(x).Ok? && Truthy(keep(x).value)
  }

  /** `items.filter(keep)`: the predicate is called on each item in order,
      the first throw aborts the filter, and the items it keeps stay in order. */
  function FilterItems(items: seq<Value>, keep: Value -> Result<Value>): (r: Result<seq<Value>>)
    ensures r.Ok? <==> forall i :: 0 <= i < |items| ==> keep(items[i]).Ok?
    ensures r.Ok? ==> forall x :: x in r.value ==> x in items && Kept(keep, x)
    ensures r.Ok? ==> |r.value| <= |items|
  {
    if |items| == 0 then Ok([])
    else
      var n := |items| - 1;
      assert forall i :: 0 <= i < n ==> items[..n][i] == items[i];
      match FilterItems(items[..n], keep)
      case Err(m) => Err(m)
      case Ok(kept) =>
        match keep(items[n])
        case Err(m) => Err(m)
        case Ok(v) => Ok(if Truthy(v) then kept + [items[n]] else kept)
  }

  /** The filter keeps each kept item as often as it occurs, and no other item. */
  lemma {:induction false} FilterItemsCount(items: seq<Value>, keep: Value -> Result<Value>, x: Value)
    requires FilterItems(items, keep).Ok?
    ensures multiset(FilterItems(items, keep).value)[x] == if Kept(keep, x) then multiset(items)[x] else 0
  {
    if |items| > 0 {
      var n := |items| - 1;
      assert items == items[..n] + [items[n]];
      FilterItemsCount(items[..n], keep, x);
    }
  }

  /** Filtering a concatenation filters its parts and concatenates the
      results, which is what keeping the items' order means. */
  lemma {:induction false} FilterItemsAppend(a: seq<Value>, b: seq<Value>, keep: Value -> Result<Value>)
    requires FilterItems(a + b, keep).Ok?
    ensures FilterItems(a, keep).Ok? && FilterItems(b, keep).Ok?
    ensures FilterItems(a + b, keep).value == FilterItems(a, keep).value + FilterItems(b, keep).value
    decreases |b|
  {
    assert forall i :: 0 <= i < |a| ==> (a + b)[i] == a[i];
    assert forall i :: 0 <= i < |b| ==> (a + b)[|a| + i] == b[i];
    if |b| > 0 {
      var n := |b| - 1;
      assert (a + b)[..|a| + n] == a + b[..n];
      FilterItemsAppend(a, b[..n], keep);
    } else {
      assert a + b == a;
    }
  }

  /** When the predicate throws, the filter fails with the first item's error. */
  lemma {:induction false} FilterItemsFirstError(items: seq<Value>, keep: Value -> Result<Value>, i: nat)
    requires i < |items| && keep(items[i]).Err?
    requires forall j :: 0 <= j < i ==> keep(items[j]).Ok?
    ensures FilterItems(items, keep) == Err(keep(items[i]).error)
  {
    var n := |items| - 1;
    if i < n {
      assert items[..n][i] == items[i];
      assert forall j :: 0 <= j < i ==> items[..n][j] == items[j];
      FilterItemsFirstError(items[..n], keep, i);
    } else {
      assert forall j :: 0 <= j < n ==> items[..n][j] == items[j];
    }
  }

  /** `fields.split(',').map(f => f.trim())`. */
  function FieldNames(fields: string): seq<string> {
    var parts := Split(fields, ',');
    seq(|parts|, i requires 0 <= i < |parts| => Trim(parts[i]))
  }

  /** The names listed, as a set. */
  function Names(names: seq<string>): set<string> {
    set f | f in names
  }

  /** `{ ...record }` with every name of `names` deleted: exactly the other
      keys, with their values unchanged. */
  method RemoveFields(record: map<string, Value>, names: seq<string>) returns (result: map<string, Value>)
    ensures result.Keys == record.Keys - Names(names)
    ensures forall k :: k in result ==> result[k] == record[k]
  {
    result := record;
    var i := 0;
    while i < |names|
      invariant 0 <= i <= |names|
      invariant result.Keys == record.Keys - Names(names[..i])
      invariant forall k :: k in result ==> result[k] == record[k]
    {
      assert names[..i + 1] == names[..i] + [names[i]];
      result := result - {names[i]};
      i := i + 1;
    }
    assert names[..|names|] == names;
  }

  /** An HTTP node's response object is unwrapped to its `data` array. */
  function Unwrapped(input: Value): (r: Value)
    ensures input.Obj? && "data" in input.fields && input.fields["data"].Arr? ==> r == input.fields["data"]
    ensures !(input.Obj? && "data" in input.fields && input.fields["data"].Arr?) ==> r == input
  {
    if input.Obj? && "data" in input.fields && input.fields["data"].Arr? then input.fields["data"] else input
  }

  /** The filter mode, `array` when not set. */
  function FilterMode(data: map<string, Value>): Value {
    WithDefault(Field(data, "filterType"), Str("array"))
  }

  /** The `array` mode on the (unwrapped) input: the array itself without
      a truthy condition, otherwise the items the condition keeps; a
      non-array input, a condition that does not compile and a condition
      that throws are failures. */
  function FilterArray(host: Host, condition: Value, input: Value): (r: Result<Value>)
    ensures !input.Arr? ==> r == Err(Rethrown("Filter failed: ", "Filter input must be an array, got " + TypeOf(input)))
    ensures input.Arr? && !Truthy(condition) ==> r == Ok(input)
    ensures r.Err? ==> "Filter failed: " <= r.error
    ensures r.Ok? ==> input.Arr? && r.value.Arr? && forall x :: x in r.value.items ==> x in input.items
    ensures input.Arr? && Truthy(condition) && host.compileCondition(condition).Err? ==>
      r == Err(Rethrown("Filter failed: ", host.compileCondition(condition).error))
    ensures input.Arr? && Truthy(condition) && host.compileCondition(condition).Ok? ==>
      var kept := FilterItems(input.items, host.compileCondition(condition).value);
      && (kept.Ok? ==> r == Ok(Arr(kept.value)))
      && (kept.Err? ==> r == Err(Rethrown("Filter failed: ", kept.error)))
  {
    if !input.Arr? then Err(Rethrown("Filter failed: ", "Filter input must be an array, got " + TypeOf(input)))
    else if !Truthy(condition) then Ok(input)
    else
      match host.compileCondition(condition)
      case Err(m) => Err(Rethrown("Filter failed: ", m))
      case Ok(keep) =>
        match FilterItems(input.items, keep)
        case Err(m) => Err(Rethrown("Filter failed: ", m))
        case Ok(kept) => Ok(Arr(kept))
  }

  /** The `object` mode on the (unwrapped) input: the input itself without
      truthy `fields`, otherwise a copy with the comma-separated, trimmed
      field names removed; a non-object input and non-string `fields` are
      failures. */
  function FilterObject(fields: Value, input: Value): (r: Result<Value>)
    ensures TypeOf(input) != "object" ==> r == Err(Rethrown("Filter failed: ", "Filter input must be an object"))
    ensures r.Err? ==> "Filter failed: " <= r.error
    ensures TypeOf(input) == "object" && !Truthy(fields) ==> r == Ok(input)
    ensures TypeOf(input) == "object" && Truthy(fields) && !fields.Str? ==> r == Err(Rethrown("Filter failed: ", "fields.split is not a function"))
    ensures (TypeOf(input) == "object" && Truthy(fields) && fields.Str?) ==>
      && r.Ok? && r.value.Obj?
      && r.value.fields.Keys == Spread(input).Keys - Names(FieldNames(fields.s))
      && forall k :: k in r.value.fields ==> r.value.fields[k] == Spread(input)[k]
  {
    if TypeOf(input) != "object" then Err(Rethrown("Filter failed: ", "Filter input must be an object"))
    else if !Truthy(fields) then Ok(input)
    else if !fields.Str? then Err(Rethrown("Filter failed: ", "fields.split is not a function"))
    else Ok(Obj(Spread(input) - Names(FieldNames(fields.s))))
  }

  /** What a filter node produces from its first input: `null` for a falsy
      input, otherwise the `array` or `object` mode on the unwrapped input,
      and the unwrapped input itself in any other mode. */
  function FilterOutcome(host: Host, data: map<string, Value>, inputs: seq<Value>): (r: Result<Value>)
    ensures !Truthy(InputAt(inputs, 0)) ==> r == Ok(Null)
    ensures r.Err? ==> "Filter failed: " <= r.error
    ensures Truthy(InputAt(inputs, 0)) && FilterMode(data) == Str("array") ==>
      r == FilterArray(host, Field(data, "condition"), Unwrapped(inputs[0]))
    ensures Truthy(InputAt(inputs, 0)) && FilterMode(data) == Str("object") ==>
      r == FilterObject(Field(data, "fields"), Unwrapped(inputs[0]))
    ensures Truthy(InputAt(inputs, 0)) && FilterMode(data) != Str("array") && FilterMode(data) != Str("object") ==>
      r == Ok(Unwrapped(inputs[0]))
  {
    if !Truthy(InputAt(inputs, 0)) then Ok(Null)
    else
      var input := Unwrapped(inputs[0]);
      var mode := FilterMode(data);
      if mode == Str("array") then FilterArray(host, Field(data, "condition"), input)
      else if mode == Str("object") then FilterObject(Field(data, "fields"), input)
      else Ok(input)
  }

  /** `executeFilterNode`, with the object mode's deletion loop. */
  method ExecuteFilterNode(host: Host, node: Node, inputs: seq<Value>) returns (r: Result<Value>)
    ensures r == FilterOutcome(host, node.data, inputs)
  {
    var first := InputAt(inputs, 0);
    if !Truthy(first) {
      return Ok(Null);
    }
    var input := Unwrapped(first);
    var mode := FilterMode(node.data);
    if mode == Str("array") {
      if !input.Arr? {
        return Err(Rethrown("Filter failed: ", "Filter input must be an array, got " + TypeOf(input)));
      }
      var condition := Field(node.data, "condition");
      if !Truthy(condition) {
        return Ok(input);
      }
      match host.compileCondition(condition) {
        case Err(m) => r := Err(Rethrown("Filter failed: ", m));
        case Ok(keep) =>
          match FilterItems(input.items, keep) {
            case Err(m) => r := Err(Rethrown("Filter failed: ", m));
            case Ok(kept) => r := Ok(Arr(kept));
          }
      }
    } else if mode == Str("object") {
      if TypeOf(input) != "object" {
        return Err(Rethrown("Filter failed: ", "Filter input must be an object"));
      }
      var fields := Field(node.data, "fields");
      if !Truthy(fields) {
        return Ok(input);
      }
      if !fields.Str? {
        return Err(Rethrown("Filter failed: ", "fields.split is not a function"));
      }
      var record := Spread(input);
      var remaining := RemoveFields(record, FieldNames(fields.s));
      assert remaining == record - Names(FieldNames(fields.s));
      r := Ok(Obj(remaining));
    } else {
      r := Ok(input);
    }
  }

  // ---------------------------------------------------------------------
  // executeNode

  /** What a node produces, by its type; every failure message says which
      executor failed, and an unknown type fails without running anything. */
  function NodeOutcome(host: Host, node: Node, inputs: seq<Value>, sourceIds: seq<string>): (r: Result<Value>)
    ensures r.Err? ==>
      || (node.kind == "httpNode" && (r.error == "HTTP node requires a URL" || "HTTP request failed: " <= r.error))
      || (node.kind == "transformNode" && "Transform failed: " <= r.error)
      || (node.kind == "filterNode" && "Filter failed: " <= r.error)
      || (node.kind !in {"httpNode", "transformNode", "filterNode"} && "Unknown node type: " <= r.error)
    ensures node.kind == "httpNode" ==> r == HttpOutcome(host, node.data)
    ensures node.kind == "transformNode" ==> r == TransformOutcome(host, node.data, inputs, sourceIds)
    ensures node.kind == "filterNode" ==> r == FilterOutcome(host, node.data, inputs)
    ensures node.kind !in {"httpNode", "transformNode", "filterNode"} ==> r == Err("Unknown node type: " + node.kind)
  {
    match node.kind
    case "httpNode" => HttpOutcome(host, node.data)
    case "transformNode" => TransformOutcome(host, node.data, inputs, sourceIds)
    case "filterNode" => FilterOutcome(host, node.data, inputs)
    case _ => Err("Unknown node type: " + node.kind)
  }

  /** `executeNode`. */
  method ExecuteNode(host: Host, node: Node, inputs: seq<Value>, sourceIds: seq<string>) returns (r: Result<Value>)
    ensures r == NodeOutcome(host, node, inputs, sourceIds)
  {
    if node.kind == "httpNode" {
      r := ExecuteHttpNode(host, node);
    } else if node.kind == "transformNode" {
      r := ExecuteTransformNode(host, node, inputs, sourceIds);
    } else if node.kind == "filterNode" {
      r := ExecuteFilterNode(host, node, inputs);
    } else {
      r := Err("Unknown node type: " + node.kind);
    }
  }
}
