/**
 * Rule-option parsing: rule arguments such as `["foo-bar", {"do-it": "foo"}]` become a
 * flat options object whose keys are camel-cased. The model follows the code as written,
 * where a camel-cased tail of two or more words is joined with commas.
 */
module Options {
  import opened Wrappers

  /** The values a rule argument can hold, as the host passes them in. */
  datatype Json =
    | JUndefined
    | JNull
    | JBool(b: bool)
    | JNumber(n: int)
    | JString(s: string)
    | JArray(items: seq<Json>)
    | JObject(entries: seq<(string, Json)>)   // in `Object.keys` order

  /** The errors the source throws: reading `word[0]` of an empty word, `Object.keys(null)`. */
  datatype OptionsError = EmptyWord | NullArgument

  type OptionsMap = map<string, Json>

  predicate IsSeparator(c: char) {
    c == '-' || c == '_'
  }

  predicate IsUpper(c: char) {
    'A' <= c <= 'Z'
  }

  /** `toLowerCase` on one ASCII character: an upper-case letter becomes its lower-case partner. */
  function LowerChar(c: char): (r: char)
    ensures !IsUpper(r)
    ensures IsUpper(c) ==> 'a' <= r <= 'z' && UpperChar(r) == c
    ensures !IsUpper(c) ==> r == c
  {
    if IsUpper(c) then (c as int + 32) as char else c
  }

  /** `toUpperCase` on one ASCII character: a lower-case letter becomes its upper-case partner. */
  function UpperChar(c: char): (r: char)
    ensures 'a' <= c <= 'z' ==> IsUpper(r) && r as int + 32 == c as int
    ensures !('a' <= c <= 'z') ==> r == c
  {
    if 'a' <= c <= 'z' then (c as int - 32) as char else c
  }

  /** `toLowerCase`, character by character. */
  function ToLower(s: string): (r: string)
    ensures |r| == |s|
    ensures forall k :: 0 <= k < |r| ==> r[k] == LowerChar(s[k])
    ensures forall k :: 0 <= k < |r| ==> !IsUpper(r[k])
    ensures forall k :: 0 <= k < |r| ==> (s[k] == ',' <==> r[k] == ',')
    ensures forall k :: 0 <= k < |r| ==> (IsSeparator(s[k]) <==> IsSeparator(r[k]))
  {
    if s == [] then [] else [LowerChar(s[0])] + ToLower(s[1..])
  }

  /** `text.split(/[-_]/g)`: the pieces between separators, empty pieces included. */
  function Split(text: string): (words: seq<string>)
    ensures |words| >= 1
  {
    if text == [] then [""]
    else if IsSeparator(text[0]) then [""] + Split(text[1..])
    else
      var rest := Split(text[1..]);
      [[text[0]] + rest[0]] + rest[1..]
  }

  /** The separators of `text`, in order. */
  function Separators(text: string): string {
    if text == [] then []
    else (if IsSeparator(text[0]) then [text[0]] else []) + Separators(text[1..])
  }

  /** Puts the words back together with the given separators between them. */
  function Rejoin(words: seq<string>, seps: string): string
    requires |words| == |seps| + 1
  {
    if seps == [] then words[0] else words[0] + [seps[0]] + Rejoin(words[1..], seps[1..])
  }

  /** JavaScript's `Array.prototype.join`. */
  function Join(items: seq<string>, sep: string): string {
    if items == [] then []
    else if |items| == 1 then items[0]
    else items[0] + sep + Join(items[1..], sep)
  }

  /** `word[0].toUpperCase() + word.toLowerCase().slice(1)`; throws on the empty word. */
  function UpFirst(word: string): (r: Result<string, OptionsError>)
    ensures r.Err? <==> word == []
    ensures r.Ok? ==> |r.value| == |word|
    ensures r.Ok? ==> r.value[0] == UpperChar(word[0])
    ensures r.Ok? ==> forall i :: 1 <= i < |word| ==> r.value[i] == LowerChar(word[i])
  {
    if word == [] then Err(EmptyWord) else Ok([UpperChar(word[0])] + ToLower(word)[1..])
  }

  /** `words.map(upFirst)`, stopping at the first throw. */
  function UpFirstAll(words: seq<string>): (r: Result<seq<string>, OptionsError>)
    ensures r.Err? <==> exists i :: 0 <= i < |words| && words[i] == []
    ensures r.Ok? ==> |r.value| == |words|
    ensures r.Ok? ==> forall i :: 0 <= i < |words| ==> UpFirst(words[i]) == Ok(r.value[i])
  {
    if words == [] then Ok([])
    else match UpFirst(words[0])
      case Err(e) => Err(e)
      case Ok(w) =>
        match UpFirstAll(words[1..])
        case Err(e) => (assert words[1..][0] == words[1]; Err(e))
        case Ok(ws) => Ok([w] + ws)
  }

  /** Lower-cases the first word and joins the capitalised later words with `sep`. */
  function CamelizeJoining(text: string, sep: string): Result<string, OptionsError> {
    var words := Split(text);
    var tail := UpFirstAll(words[1..]);
    if tail.Err? then Err(tail.error) else Ok(ToLower(words[0]) + Join(tail.value, sep))
  }

  /**
   * `words[0].toLowerCase() + words.slice(1).map(upFirst)`: adding an array to a string
   * joins the array's elements with commas.
   */
  function Camelize(text: string): Result<string, OptionsError> {
    CamelizeJoining(text, ",")
  }

  /** The camel-casing the doc comment describes: the capitalised tail is concatenated. */
  function CamelizeIntended(text: string): Result<string, OptionsError> {
    CamelizeJoining(text, "")
  }

  /** `Object.keys` of an array: the decimal indices. */
  function IndexKey(n: nat): string
    decreases n
  {
    if n < 10 then [(n + '0' as int) as char] else IndexKey(n / 10) + [(n % 10 + '0' as int) as char]
  }

  function ArrayEntries(items: seq<Json>, from: nat): seq<(string, Json)>
    decreases |items|
  {
    if items == [] then [] else [(IndexKey(from), items[0])] + ArrayEntries(items[1..], from + 1)
  }

  /** A camel-casing function: the one the source uses is `Camelize`. */
  type Camel = string -> Result<string, OptionsError>

  /** The inner loop over an object's keys: each camel-cased key gets the key's value. */
  function CamelizeEntries(camel: Camel, o2: OptionsMap, entries: seq<(string, Json)>): Result<OptionsMap, OptionsError>
    decreases |entries|
  {
    if entries == [] then Ok(o2)
    else match camel(entries[0].0)
      case Err(e) => Err(e)
      case Ok(k) => CamelizeEntries(camel, o2[k := entries[0].1], entries[1..])
  }

  /** One iteration of the outer loop. */
  function Step(camel: Camel, options: OptionsMap, o: Json): Result<OptionsMap, OptionsError> {
    match o
    case JString(s) =>
      (match camel(s)
       case Err(e) => Err(e)
       case Ok(k) => Ok(options[k := JBool(true)]))
    case JObject(entries) =>
      (match CamelizeEntries(camel, map[], entries)
       case Err(e) => Err(e)
       case Ok(o2) => Ok(options + o2))
    case JArray(items) =>
      (match CamelizeEntries(camel, map[], ArrayEntries(items, 0))
       case Err(e) => Err(e)
       case Ok(o2) => Ok(options + o2))
    case JNull => Err(NullArgument)
    case _ => Ok(options)
  }

  function ParseFrom(camel: Camel, options: OptionsMap, args: seq<Json>): Result<OptionsMap, OptionsError>
    decreases |args|
  {
    if args == [] then Ok(options)
    else match Step(camel, options, args[0])
      case Err(e) => Err(e)
      case Ok(next) => ParseFrom(camel, next, args[1..])
  }

  function ParseOptionsWith(camel: Camel, ruleArguments: seq<Json>): Result<OptionsMap, OptionsError> {
    ParseFrom(camel, map[], ruleArguments)
  }

  /** What `parseOptions` returns (or throws) for the given rule arguments. */
  function ParseOptionsSpec(ruleArguments: seq<Json>): Result<OptionsMap, OptionsError> {
    ParseOptionsWith(Camelize, ruleArguments)
  }

  /** `Boolean(value)` (numbers are integers here, so NaN does not arise). */
  predicate Truthy(value: Json) {
    match value
    case JUndefined => false
    case JNull => false
    case JBool(b) => b
    case JNumber(n) => n != 0
    case JString(s) => s != []
    case _ => true
  }

  /** `Boolean(options[key])`, an absent key reading as `undefined`. */
  predicate Flag(options: OptionsMap, key: string) {
    key in options && Truthy(options[key])
  }

  /** The source's `parseOptions`: two nested loops updating the options object. */
  method ParseOptions(ruleArguments: seq<Json>) returns (r: Result<OptionsMap, OptionsError>)
    ensures r == ParseOptionsSpec(ruleArguments)
  {
    var options: OptionsMap := map[];
    for i := 0 to |ruleArguments|
      invariant ParseFrom(Camelize, options, ruleArguments[i..]) == ParseOptionsSpec(ruleArguments)
    {
      var o := ruleArguments[i];
      assert ruleArguments[i..][0] == o && ruleArguments[i..][1..] == ruleArguments[i + 1..];
      match o {
        case JString(s) =>
          var k := Camelize(s);
          if k.Err? {
            return Err(k.error);
          }
          options := options[k.value := JBool(true)];
        case JObject(entries) =>
          var o2 := CamelizeKeys(entries);
          if o2.Err? {
            return Err(o2.error);
          }
          options := options + o2.value;
        case JArray(items) =>
          var o2 := CamelizeKeys(ArrayEntries(items, 0));
          if o2.Err? {
            return Err(o2.error);
          }
          options := options + o2.value;
        case JNull =>
          return Err(NullArgument);
        case _ =>
      }
    }
    assert ruleArguments[|ruleArguments|..] == [];
    r := Ok(options);
  }

  /** The inner loop: copies an object's values under camel-cased keys. */
  method CamelizeKeys(entries: seq<(string, Json)>) returns (r: Result<OptionsMap, OptionsError>)
    ensures r == CamelizeEntries(Camelize, map[], entries)
  {
    var o2: OptionsMap := map[];
    for i := 0 to |entries|
      invariant CamelizeEntries(Camelize, o2, entries[i..]) == CamelizeEntries(Camelize, map[], entries)
    {
      assert entries[i..][0] == entries[i] && entries[i..][1..] == entries[i + 1..];
      var k := Camelize(entries[i].0);
      if k.Err? {
        return Err(k.error);
      }
      o2 := o2[k.value := entries[i].1];
    }
    assert entries[|entries|..] == [];
    r := Ok(o2);
  }
}
