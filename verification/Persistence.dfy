/**
  The tagged-tree codec of saved state (`ministack/core/persistence.py`): scoped dictionaries and
  bytes become tagged JSON objects, and a hook called on every object, innermost first, restores them.
 */
module Persistence {
  import opened Results

  /** A key of a scoped dictionary. */
  datatype Key = TextKey(text: string) | NumberKey(number: int) | TupleKey(parts: seq<Key>)

  datatype Scope = Account(account: string, key: Key) | Region(account: string, region: string, key: Key)

  /** One item of a dictionary. */
  datatype Item<+K, +V> = Item(key: K, value: V)

  /** A value in memory; dictionaries are their items in insertion order. */
  datatype Value =
    | Null
    | Boolean(truth: bool)
    | Number(number: int)
    | Text(text: string)
    | Bytes(bytes: seq<int>)
    | List(items: seq<Value>)
    | Dict(fields: seq<Item<string, Value>>)
    | AccountScoped(entries: seq<Item<Scope, Value>>)
    | RegionScoped(entries: seq<Item<Scope, Value>>)

  datatype Json =
    | JNull
    | JBoolean(truth: bool)
    | JNumber(number: int)
    | JText(text: string)
    | JList(items: seq<Json>)
    | JObject(fields: seq<Item<string, Json>>)

  /** `repr` and `literal_eval`, base64 both ways, and how a scoped dictionary's truth depends on the current request. */
  datatype Codecs = Codecs(repr: Key -> string, read: string -> Option<Key>,
                           pack: seq<int> -> string, unpack: string -> Option<seq<int>>, live: Value -> bool)

  ghost predicate Inverse(c: Codecs) {
    (forall k :: c.read(c.repr(k)) == Some(k)) && forall b :: c.unpack(c.pack(b)) == Some(b)
  }

  const REGION_TAG := "__account_region_scoped__"
  const SCOPED_TAG := "__scoped__"
  const BYTES_TAG := "__bytes__"
  const DATA := "data"
  const NUL: char := '\U{0000}'

  // ---------------------------------------------------------------- dictionaries as item lists

  function Find<K(==), V>(items: seq<Item<K, V>>, key: K): (r: Option<V>)
    ensures r.None? <==> forall e <- items :: e.key != key
    ensures r.Some? ==> Item(key, r.value) in items
  {
    if items == [] then None
    else
      var last := items[|items| - 1];
      assert items == items[..|items| - 1] + [last];
      if last.key == key then Some(last.value) else Find(items[..|items| - 1], key)
  }

  /** `d[key] = value`: an existing key keeps its place. */
  function Put<K(==), V>(items: seq<Item<K, V>>, key: K, value: V): seq<Item<K, V>> {
    if items == [] then [Item(key, value)]
    else if items[0].key == key then [Item(key, value)] + items[1..]
    else [items[0]] + Put(items[1..], key, value)
  }

  ghost predicate Distinct<K, V>(items: seq<Item<K, V>>) {
    forall i, j :: 0 <= i < j < |items| ==> items[i].key != items[j].key
  }

  lemma {:induction false} PutNew<K, V>(items: seq<Item<K, V>>, key: K, value: V)
    requires forall e <- items :: e.key != key
    ensures Put(items, key, value) == items + [Item(key, value)]
  {
    if items != [] {
      PutNew(items[1..], key, value);
    }
  }

  lemma {:induction false} PutDistinct<K, V>(items: seq<Item<K, V>>, key: K, value: V)
    requires Distinct(items)
    ensures Distinct(Put(items, key, value))
    ensures forall e <- Put(items, key, value) :: e == Item(key, value) || e in items
  {
    if items != [] && items[0].key != key {
      PutDistinct(items[1..], key, value);
      assert forall e <- items[1..] :: e.key != items[0].key;
      var r := Put(items[1..], key, value);
      forall i, j | 0 <= i < j < |[items[0]] + r| ensures ([items[0]] + r)[i].key != ([items[0]] + r)[j].key {
        assert r[j - 1] in r;
        if i > 0 {
          assert r[i - 1].key != r[j - 1].key;
        }
      }
    }
  }

  // ---------------------------------------------------------------- scoped keys on disk

  function DiskKey(c: Codecs, scope: Scope): string {
    match scope
    case Account(a, k) => a + [NUL] + c.repr(k)
    case Region(a, r, k) => a + [NUL] + r + [NUL] + c.repr(k)
  }

  /** `s.split("\x00", 1)` when the separator occurs. */
  function Cut(s: string): (r: Option<(string, string)>)
    ensures r.Some? ==> NUL !in r.value.0 && s == r.value.0 + [NUL] + r.value.1
    ensures r.None? <==> NUL !in s
  {
    if s == "" then None
    else if s[0] == NUL then Some(("", s[1..]))
    else
      var r := Cut(s[1..]);
      if r.None? then None else Some(([s[0]] + r.value.0, r.value.1))
  }

  function ReadKey(c: Codecs, text: string): Key {
    var key := c.read(text);
    if key.Some? then key.value else TextKey(text)
  }

  /** The hook's reading of one disk key; `None` where unpacking the split would raise. */
  function ReadScope(c: Codecs, regional: bool, s: string): Option<Scope> {
    var first := Cut(s);
    if first.None? then None
    else if !regional then Some(Account(first.value.0, ReadKey(c, first.value.1)))
    else
      var second := Cut(first.value.1);
      if second.None? then None
      else Some(Region(first.value.0, second.value.0, ReadKey(c, second.value.1)))
  }

  /** No NUL where a later split would take it for a separator. */
  predicate NulFree(scope: Scope) {
    NUL !in scope.account && (scope.Region? ==> NUL !in scope.region)
  }

  lemma {:induction false} CutJoin(a: string, b: string)
    requires NUL !in a
    ensures Cut(a + [NUL] + b) == Some((a, b))
  {
    var s := a + [NUL] + b;
    if a == "" {
      assert s[0] == NUL && s[1..] == b;
    } else {
      assert s[0] == a[0] && a[0] in a && s[1..] == a[1..] + [NUL] + b;
      CutJoin(a[1..], b);
      assert [a[0]] + a[1..] == a;
    }
  }

  /** A disk key reads back exactly when its account and region hold no NUL. */
  lemma ScopeRoundTripIff(c: Codecs, scope: Scope)
    requires Inverse(c)
    ensures ReadScope(c, scope.Region?, DiskKey(c, scope)) == Some(scope) <==> NulFree(scope)
  {
    match scope
    case Account(a, k) =>
      if NUL !in a {
        CutJoin(a, c.repr(k));
      }
    case Region(a, r, k) =>
      var rest := r + [NUL] + c.repr(k);
      assert DiskKey(c, scope) == a + [NUL] + rest;
      if NUL !in a {
        CutJoin(a, rest);
        if NUL !in r {
          CutJoin(r, c.repr(k));
        }
      }
  }

  /** Distinct clean scopes never share a key on disk. */
  lemma DiskKeysInjective(c: Codecs, s: Scope, t: Scope)
    requires Inverse(c) && NulFree(s) && NulFree(t) && s.Region? == t.Region?
    ensures DiskKey(c, s) == DiskKey(c, t) <==> s == t
  {
    ScopeRoundTripIff(c, s);
    ScopeRoundTripIff(c, t);
  }

  /** With a NUL in an account they can. */
  lemma DiskKeysCollide(c: Codecs, account: string, region: string, k: Key)
    ensures DiskKey(c, Region(account, region + [NUL] + region, k)) == DiskKey(c, Region(account + [NUL] + region, region, k))
  {
  }

  /** `repr` escapes control characters. */
  ghost predicate EscapesNul(c: Codecs) {
    forall k :: NUL !in c.repr(k)
  }

  function Nuls(s: string): nat {
    if s == "" then 0 else (if s[0] == NUL then 1 else 0) + Nuls(s[1..])
  }

  lemma {:induction false} NulsJoin(a: string, b: string)
    ensures Nuls(a + b) == Nuls(a) + Nuls(b)
  {
    if a == "" {
      assert a + b == b;
    } else {
      assert (a + b)[1..] == a[1..] + b;
      NulsJoin(a[1..], b);
    }
  }

  lemma {:induction false} NoNuls(s: string)
    ensures Nuls(s) == 0 <==> NUL !in s
  {
    if s != "" {
      assert s == [s[0]] + s[1..];
      NoNuls(s[1..]);
    }
  }

  lemma DiskKeyNuls(c: Codecs, scope: Scope)
    requires EscapesNul(c)
    ensures Nuls(DiskKey(c, scope)) == Nuls(scope.account) + (if scope.Region? then Nuls(scope.region) + 2 else 1)
  {
    NoNuls(c.repr(scope.key));
    match scope
    case Account(a, k) =>
      NulsJoin(a + [NUL], c.repr(k));
      NulsJoin(a, [NUL]);
    case Region(a, r, k) =>
      NulsJoin(a + [NUL] + r + [NUL], c.repr(k));
      NulsJoin(a + [NUL] + r, [NUL]);
      NulsJoin(a + [NUL], r);
      NulsJoin(a, [NUL]);
  }

  lemma EndsInNul(a: string, x: string)
    requires NUL !in x
    ensures var s := a + [NUL] + x; s[|s| - 1] == NUL <==> x == ""
  {
    var s := a + [NUL] + x;
    if x != "" {
      assert s[|s| - 1] == x[|x| - 1] && x[|x| - 1] in x;
    }
  }

  /** The last NUL of a text separates what follows it from what comes before. */
  lemma {:induction false} LastCut(a: string, x: string, b: string, y: string)
    requires NUL !in x && NUL !in y && a + [NUL] + x == b + [NUL] + y
    ensures a == b && x == y
  {
    var s := a + [NUL] + x;
    EndsInNul(a, x);
    EndsInNul(b, y);
    if x == "" {
      assert a == s[..|s| - 1] == b;
    } else {
      assert x[|x| - 1] == s[|s| - 1] == y[|y| - 1];
      assert a + [NUL] + x[..|x| - 1] == s[..|s| - 1] == b + [NUL] + y[..|y| - 1];
      LastCut(a, x[..|x| - 1], b, y[..|y| - 1]);
      assert x == x[..|x| - 1] + [x[|x| - 1]] && y == y[..|y| - 1] + [y[|y| - 1]];
    }
  }

  /** No other scope of its kind has this scope's disk key. */
  ghost predicate Unshared(c: Codecs, scope: Scope) {
    forall t: Scope :: t.Region? == scope.Region? && DiskKey(c, t) == DiskKey(c, scope) ==> t == scope
  }

  lemma SameText(c: Codecs, s: Scope, t: Scope)
    requires Inverse(c) && EscapesNul(c) && s.Region? == t.Region? && DiskKey(c, t) == DiskKey(c, s)
    requires s.Account? || NulFree(s)
    ensures t == s
  {
    match s
    case Account(a, k) =>
      LastCut(a, c.repr(k), t.account, c.repr(t.key));
      assert c.read(c.repr(k)) == Some(k) && c.read(c.repr(t.key)) == Some(t.key);
    case Region(a, r, k) =>
      DiskKeyNuls(c, s);
      DiskKeyNuls(c, t);
      NoNuls(a);
      NoNuls(r);
      NoNuls(t.account);
      NoNuls(t.region);
      DiskKeysInjective(c, s, t);
  }

  /** A regional scope with a NUL shares its key with the one whose separators are read one NUL later or earlier. */
  lemma OtherScope(c: Codecs, s: Scope) returns (t: Scope)
    requires s.Region? && !NulFree(s)
    ensures t.Region? && t != s && DiskKey(c, t) == DiskKey(c, s)
  {
    if NUL in s.account {
      var (front, rest) := Cut(s.account).value;
      t := Region(front, rest + [NUL] + s.region, s.key);
      assert |front| < |s.account|;
      assert (front + [NUL] + rest) + [NUL] + s.region == front + [NUL] + (rest + [NUL] + s.region);
    } else {
      var (front, rest) := Cut(s.region).value;
      t := Region(s.account + [NUL] + front, rest, s.key);
      assert |t.account| > |s.account|;
      assert s.account + [NUL] + (front + [NUL] + rest) == (s.account + [NUL] + front) + [NUL] + rest;
    }
  }

  /** Keys of account scopes never collide; a regional scope's key is its own exactly when it holds no NUL. */
  lemma UnsharedIff(c: Codecs, scope: Scope)
    requires Inverse(c) && EscapesNul(c)
    ensures Unshared(c, scope) <==> scope.Account? || NulFree(scope)
  {
    if scope.Account? || NulFree(scope) {
      forall t: Scope | t.Region? == scope.Region? && DiskKey(c, t) == DiskKey(c, scope) ensures t == scope {
        SameText(c, scope, t);
      }
    } else {
      var t := OtherScope(c, scope);
    }
  }

  // ---------------------------------------------------------------- encoding

  function Encode(c: Codecs, v: Value): Json {
    match v
    case Null => JNull
    case Boolean(b) => JBoolean(b)
    case Number(n) => JNumber(n)
    case Text(s) => JText(s)
    case Bytes(b) => JObject([Item(BYTES_TAG, JText(c.pack(b)))])
    case List(items) => JList(EncodeList(c, items))
    case Dict(fields) => JObject(EncodeFields(c, fields))
    case AccountScoped(entries) => JObject([Item(SCOPED_TAG, JBoolean(true)), Item(DATA, JObject(EncodeEntries(c, entries)))])
    case RegionScoped(entries) => JObject([Item(REGION_TAG, JBoolean(true)), Item(DATA, JObject(EncodeEntries(c, entries)))])
  }

  function EncodeList(c: Codecs, items: seq<Value>): seq<Json> {
    if items == [] then []
    else EncodeList(c, items[..|items| - 1]) + [Encode(c, items[|items| - 1])]
  }

  function EncodeFields(c: Codecs, fields: seq<Item<string, Value>>): seq<Item<string, Json>> {
    if fields == [] then []
    else
      var last := fields[|fields| - 1];
      assert last.value < last;
      Put(EncodeFields(c, fields[..|fields| - 1]), last.key, Encode(c, last.value))
  }

  /** The `result` dictionary `_json_default` fills, with its values encoded. */
  function EncodeEntries(c: Codecs, entries: seq<Item<Scope, Value>>): seq<Item<string, Json>> {
    if entries == [] then []
    else
      var last := entries[|entries| - 1];
      assert last.value < last;
      Put(EncodeEntries(c, entries[..|entries| - 1]), DiskKey(c, last.key), Encode(c, last.value))
  }

  // ---------------------------------------------------------------- decoding

  predicate Truthy(c: Codecs, v: Value) {
    match v
    case Null => false
    case Boolean(b) => b
    case Number(n) => n != 0
    case Text(s) => s != ""
    case Bytes(b) => b != []
    case List(items) => items != []
    case Dict(fields) => fields != []
    case AccountScoped(_) => c.live(v)
    case RegionScoped(_) => c.live(v)
  }

  /** `obj.get(tag)` is true. */
  predicate Tagged(c: Codecs, fields: seq<Item<string, Value>>, tag: string) {
    var v := Find(fields, tag);
    v.Some? && Truthy(c, v.value)
  }

  function RestoreEntries(c: Codecs, regional: bool, fields: seq<Item<string, Value>>): Option<seq<Item<Scope, Value>>> {
    if fields == [] then Some([])
    else
      var last := fields[|fields| - 1];
      var front := RestoreEntries(c, regional, fields[..|fields| - 1]);
      var scope := ReadScope(c, regional, last.key);
      if front.None? || scope.None? then None else Some(Put(front.value, scope.value, last.value))
  }

  /** The items under `data`, restored; `None` where the hook would raise. */
  function RestoreData(c: Codecs, regional: bool, fields: seq<Item<string, Value>>): Option<seq<Item<Scope, Value>>> {
    var data := Find(fields, DATA);
    if data.Some? && data.value.Dict? then RestoreEntries(c, regional, data.value.fields) else None
  }

  /** `_json_object_hook`, on an object whose members are decoded already. */
  function Hook(c: Codecs, fields: seq<Item<string, Value>>): Option<Value> {
    if Tagged(c, fields, REGION_TAG) then
      var entries := RestoreData(c, true, fields);
      if entries.Some? then Some(RegionScoped(entries.value)) else None
    else if Tagged(c, fields, SCOPED_TAG) then
      var entries := RestoreData(c, false, fields);
      if entries.Some? then Some(AccountScoped(entries.value)) else None
    else
      var packed := Find(fields, BYTES_TAG);
      if packed.None? then Some(Dict(fields))
      else if packed.value.Text? then
        var bytes := c.unpack(packed.value.text);
        if bytes.Some? then Some(Bytes(bytes.value)) else None
      else None
  }

  function Decode(c: Codecs, j: Json): Option<Value> {
    match j
    case JNull => Some(Null)
    case JBoolean(b) => Some(Boolean(b))
    case JNumber(n) => Some(Number(n))
    case JText(s) => Some(Text(s))
    case JList(items) =>
      var list := DecodeList(c, items);
      if list.Some? then Some(List(list.value)) else None
    case JObject(fields) =>
      var dict := DecodeFields(c, fields);
      if dict.Some? then Hook(c, dict.value) else None
  }

  function DecodeList(c: Codecs, items: seq<Json>): Option<seq<Value>> {
    if items == [] then Some([])
    else
      var front, last := DecodeList(c, items[..|items| - 1]), Decode(c, items[|items| - 1]);
      if front.None? || last.None? then None else Some(front.value + [last.value])
  }

  function DecodeFields(c: Codecs, fields: seq<Item<string, Json>>): Option<seq<Item<string, Value>>> {
    if fields == [] then Some([])
    else
      var last := fields[|fields| - 1];
      assert last.value < last;
      var front, value := DecodeFields(c, fields[..|fields| - 1]), Decode(c, last.value);
      if front.None? || value.None? then None else Some(Put(front.value, last.key, value.value))
  }

  // ---------------------------------------------------------------- the saved form

  /** The seven kinds of empty value are false, and nothing else is but a scoped dictionary at its own choice. */
  lemma TruthyIff(c: Codecs, v: Value)
    requires !v.AccountScoped? && !v.RegionScoped?
    ensures Truthy(c, v) <==> v !in {Null, Boolean(false), Number(0), Text(""), Bytes([]), List([]), Dict([])}
  {
  }

  /** What is written for bytes and for a scoped dictionary of one entry, tags, separators and all. */
  lemma SavedForms(c: Codecs, bytes: seq<int>, account: string, region: string, k: Key, v: Value)
    ensures Encode(c, Bytes(bytes)) == JObject([Item("__bytes__", JText(c.pack(bytes)))])
    ensures Encode(c, AccountScoped([Item(Account(account, k), v)]))
         == JObject([Item("__scoped__", JBoolean(true)),
                     Item("data", JObject([Item(account + "\U{0000}" + c.repr(k), Encode(c, v))]))])
    ensures Encode(c, RegionScoped([Item(Region(account, region, k), v)]))
         == JObject([Item("__account_region_scoped__", JBoolean(true)),
                     Item("data", JObject([Item(account + "\U{0000}" + region + "\U{0000}" + c.repr(k), Encode(c, v))]))])
  {
    OneEntry(c, Account(account, k), v);
    OneEntry(c, Region(account, region, k), v);
    hide EncodeEntries;
  }

  lemma OneEntry(c: Codecs, scope: Scope, v: Value)
    ensures EncodeEntries(c, [Item(scope, v)]) == [Item(DiskKey(c, scope), Encode(c, v))]
  {
    var entries := [Item(scope, v)];
    assert entries[..|entries| - 1] == [];
    hide Encode;
  }

  // ---------------------------------------------------------------- the two callbacks as they run

  /** The `result` dictionary before its values are encoded. */
  function DiskItems(c: Codecs, entries: seq<Item<Scope, Value>>): seq<Item<string, Value>> {
    if entries == [] then []
    else
      var last := entries[|entries| - 1];
      Put(DiskItems(c, entries[..|entries| - 1]), DiskKey(c, last.key), last.value)
  }

  /** What `_json_default` returns; `None` for its TypeError. */
  function Default(c: Codecs, v: Value): Option<Value> {
    match v
    case RegionScoped(entries) => Some(Dict([Item(REGION_TAG, Boolean(true)), Item(DATA, Dict(DiskItems(c, entries)))]))
    case AccountScoped(entries) => Some(Dict([Item(SCOPED_TAG, Boolean(true)), Item(DATA, Dict(DiskItems(c, entries)))]))
    case Bytes(b) => Some(Dict([Item(BYTES_TAG, Text(c.pack(b)))]))
    case _ => None
  }

  method FillResult(c: Codecs, entries: seq<Item<Scope, Value>>) returns (result: seq<Item<string, Value>>)
    ensures result == DiskItems(c, entries)
  {
    result := [];
    for i := 0 to |entries|
      invariant result == DiskItems(c, entries[..i])
    {
      assert entries[..i + 1][..i] == entries[..i];
      result := Put(result, DiskKey(c, entries[i].key), entries[i].value);
    }
    assert entries[..|entries|] == entries;
  }

  method JsonDefault(c: Codecs, v: Value) returns (r: Option<Value>)
    ensures r == Default(c, v)
  {
    if v.RegionScoped? {
      var result := FillResult(c, v.entries);
      return Some(Dict([Item(REGION_TAG, Boolean(true)), Item(DATA, Dict(result))]));
    }
    if v.AccountScoped? {
      var result := FillResult(c, v.entries);
      return Some(Dict([Item(SCOPED_TAG, Boolean(true)), Item(DATA, Dict(result))]));
    }
    if v.Bytes? {
      return Some(Dict([Item(BYTES_TAG, Text(c.pack(v.bytes)))]));
    }
    return None;
  }

  method RestoreLoop(c: Codecs, regional: bool, fields: seq<Item<string, Value>>) returns (r: Option<seq<Item<Scope, Value>>>)
    ensures r == RestoreEntries(c, regional, fields)
  {
    var restored: seq<Item<Scope, Value>> := [];
    for i := 0 to |fields|
      invariant RestoreEntries(c, regional, fields[..i]) == Some(restored)
    {
      assert fields[..i + 1][..i] == fields[..i];
      var scope := ReadScope(c, regional, fields[i].key);
      if scope.None? {
        RestoreFails(c, regional, fields, i + 1);
        return None;
      }
      restored := Put(restored, scope.value, fields[i].value);
    }
    assert fields[..|fields|] == fields;
    return Some(restored);
  }

  lemma {:induction false} RestoreFails(c: Codecs, regional: bool, fields: seq<Item<string, Value>>, i: nat)
    requires i <= |fields| && RestoreEntries(c, regional, fields[..i]).None?
    ensures RestoreEntries(c, regional, fields).None?
  {
    if i < |fields| {
      assert fields[..|fields| - 1][..i] == fields[..i];
      RestoreFails(c, regional, fields[..|fields| - 1], i);
    } else {
      assert fields[..i] == fields;
    }
  }

  method JsonObjectHook(c: Codecs, fields: seq<Item<string, Value>>) returns (r: Option<Value>)
    ensures r == Hook(c, fields)
  {
    if Tagged(c, fields, REGION_TAG) {
      var data := Find(fields, DATA);
      if data.None? || !data.value.Dict? {
        return None;
      }
      var entries := RestoreLoop(c, true, data.value.fields);
      return if entries.Some? then Some(RegionScoped(entries.value)) else None;
    }
    if Tagged(c, fields, SCOPED_TAG) {
      var data := Find(fields, DATA);
      if data.None? || !data.value.Dict? {
        return None;
      }
      var entries := RestoreLoop(c, false, data.value.fields);
      return if entries.Some? then Some(AccountScoped(entries.value)) else None;
    }
    var packed := Find(fields, BYTES_TAG);
    if packed.None? {
      return Some(Dict(fields));
    }
    if !packed.value.Text? {
      return None;
    }
    var bytes := c.unpack(packed.value.text);
    return if bytes.Some? then Some(Bytes(bytes.value)) else None;
  }

  // ---------------------------------------------------------------- encoding goes through the callback

  lemma {:induction false} EncodePut(c: Codecs, fields: seq<Item<string, Value>>, key: string, value: Value)
    requires Distinct(fields)
    ensures EncodeFields(c, Put(fields, key, value)) == Put(EncodeFields(c, fields), key, Encode(c, value))
  {
    PutDistinct(fields, key, value);
    EncodeDistinct(c, fields);
    EncodeDistinct(c, Put(fields, key, value));
    PutEncoded(c, fields, key, value);
  }

  /** On distinct keys encoding goes item by item. */
  function EachEncoded(c: Codecs, fields: seq<Item<string, Value>>): (r: seq<Item<string, Json>>)
    ensures |r| == |fields| && forall i :: 0 <= i < |fields| ==> r[i] == Item(fields[i].key, Encode(c, fields[i].value))
  {
    seq(|fields|, i requires 0 <= i < |fields| => Item(fields[i].key, Encode(c, fields[i].value)))
  }

  lemma {:induction false} EncodeDistinct(c: Codecs, fields: seq<Item<string, Value>>)
    requires Distinct(fields)
    ensures EncodeFields(c, fields) == EachEncoded(c, fields)
  {
    if fields != [] {
      var front, last := fields[..|fields| - 1], fields[|fields| - 1];
      EncodeDistinct(c, front);
      PutNew(EachEncoded(c, front), last.key, Encode(c, last.value));
      assert EachEncoded(c, fields) == EachEncoded(c, front) + [Item(last.key, Encode(c, last.value))];
    }
  }

  lemma {:induction false} PutEncoded(c: Codecs, fields: seq<Item<string, Value>>, key: string, value: Value)
    ensures EachEncoded(c, Put(fields, key, value)) == Put(EachEncoded(c, fields), key, Encode(c, value))
  {
    if fields != [] {
      PutEncoded(c, fields[1..], key, value);
      assert EachEncoded(c, fields)[1..] == EachEncoded(c, fields[1..]);
    }
  }

  lemma {:induction false} DiskItemsDistinct(c: Codecs, entries: seq<Item<Scope, Value>>)
    ensures Distinct(DiskItems(c, entries))
  {
    if entries != [] {
      var last := entries[|entries| - 1];
      DiskItemsDistinct(c, entries[..|entries| - 1]);
      PutDistinct(DiskItems(c, entries[..|entries| - 1]), DiskKey(c, last.key), last.value);
    }
  }

  lemma {:induction false} EntriesAsFields(c: Codecs, entries: seq<Item<Scope, Value>>)
    ensures EncodeEntries(c, entries) == EncodeFields(c, DiskItems(c, entries))
  {
    if entries != [] {
      var front, last := entries[..|entries| - 1], entries[|entries| - 1];
      EntriesAsFields(c, front);
      DiskItemsDistinct(c, front);
      EncodePut(c, DiskItems(c, front), DiskKey(c, last.key), last.value);
    }
  }

  lemma TwoFields(c: Codecs, tag: string, v: Value, w: Value)
    requires tag != DATA
    ensures EncodeFields(c, [Item(tag, v), Item(DATA, w)]) == [Item(tag, Encode(c, v)), Item(DATA, Encode(c, w))]
  {
    EncodeDistinct(c, [Item(tag, v), Item(DATA, w)]);
  }

  /** A value the library cannot write itself is encoded as what the callback makes of it. */
  lemma EncodesItsDefault(c: Codecs, v: Value)
    requires Default(c, v).Some?
    ensures Encode(c, v) == Encode(c, Default(c, v).value)
  {
    match v
    case Bytes(b) =>
      EncodeDistinct(c, [Item(BYTES_TAG, Text(c.pack(b)))]);
    case AccountScoped(entries) =>
      EntriesAsFields(c, entries);
      TwoFields(c, SCOPED_TAG, Boolean(true), Dict(DiskItems(c, entries)));
    case RegionScoped(entries) =>
      EntriesAsFields(c, entries);
      TwoFields(c, REGION_TAG, Boolean(true), Dict(DiskItems(c, entries)));
  }

  // ---------------------------------------------------------------- what survives the round trip

  /** Nothing in the value looks like a tag, and every scope keeps NULs to itself. */
  ghost predicate Storable(c: Codecs, v: Value)
    decreases v
  {
    match v
    case List(items) => forall i :: 0 <= i < |items| ==> Storable(c, items[i])
    case Dict(fields) => AllStorable(c, fields) && Distinct(fields) && Untagged(c, fields)
    case AccountScoped(entries) => AllStorable(c, entries) && CleanScopes(entries, false)
    case RegionScoped(entries) => AllStorable(c, entries) && CleanScopes(entries, true)
    case _ => true
  }

  ghost predicate AllStorable<K>(c: Codecs, items: seq<Item<K, Value>>)
    decreases items
  {
    forall i :: 0 <= i < |items| ==> (assert items[i].value < items[i]; Storable(c, items[i].value))
  }

  predicate Untagged(c: Codecs, fields: seq<Item<string, Value>>) {
    !Tagged(c, fields, REGION_TAG) && !Tagged(c, fields, SCOPED_TAG) && Find(fields, BYTES_TAG).None?
  }

  ghost predicate CleanScopes(entries: seq<Item<Scope, Value>>, regional: bool) {
    Distinct(entries) && forall e <- entries :: NulFree(e.key) && e.key.Region? == regional
  }

  // ---------------------------------------------------------------- decoding an encoding

  lemma {:induction false} ListBack(c: Codecs, items: seq<Value>)
    requires forall i :: 0 <= i < |items| ==> Decode(c, Encode(c, items[i])) == Some(items[i])
    ensures DecodeList(c, EncodeList(c, items)) == Some(items)
  {
    if items != [] {
      var front, last := items[..|items| - 1], items[|items| - 1];
      ListBack(c, front);
      var encoded := EncodeList(c, items);
      assert encoded[..|encoded| - 1] == EncodeList(c, front) && encoded[|encoded| - 1] == Encode(c, last);
      assert front + [last] == items;
    }
  }

  lemma {:induction false} FieldsBack(c: Codecs, fields: seq<Item<string, Value>>)
    requires Distinct(fields)
    requires forall i :: 0 <= i < |fields| ==> Decode(c, Encode(c, fields[i].value)) == Some(fields[i].value)
    ensures DecodeFields(c, EachEncoded(c, fields)) == Some(fields)
  {
    if fields != [] {
      var front, last := fields[..|fields| - 1], fields[|fields| - 1];
      FieldsBack(c, front);
      var encoded := EachEncoded(c, fields);
      assert encoded[..|encoded| - 1] == EachEncoded(c, front);
      PutNew(front, last.key, last.value);
      assert front + [last] == fields;
    }
  }

  /** The items of a scoped dictionary under their disk keys. */
  function Named(c: Codecs, entries: seq<Item<Scope, Value>>): (r: seq<Item<string, Value>>)
    ensures |r| == |entries| && forall i :: 0 <= i < |r| ==> r[i] == Item(DiskKey(c, entries[i].key), entries[i].value)
  {
    seq(|entries|, i requires 0 <= i < |entries| => Item(DiskKey(c, entries[i].key), entries[i].value))
  }

  lemma {:induction false} DiskItemsNamed(c: Codecs, entries: seq<Item<Scope, Value>>, regional: bool)
    requires Inverse(c) && CleanScopes(entries, regional)
    ensures DiskItems(c, entries) == Named(c, entries) && Distinct(Named(c, entries))
  {
    if entries != [] {
      var front, last := entries[..|entries| - 1], entries[|entries| - 1];
      DiskItemsNamed(c, front, regional);
      forall i | 0 <= i < |front| ensures DiskKey(c, front[i].key) != DiskKey(c, last.key) {
        assert front[i] in entries;
        DiskKeysInjective(c, front[i].key, last.key);
      }
      PutNew(Named(c, front), DiskKey(c, last.key), last.value);
      assert Named(c, entries) == Named(c, front) + [Item(DiskKey(c, last.key), last.value)];
      DiskItemsDistinct(c, entries);
    }
  }

  lemma RestoreSnoc(c: Codecs, front: seq<Item<string, Value>>, name: string, value: Value, regional: bool, restored: seq<Item<Scope, Value>>, scope: Scope)
    requires RestoreEntries(c, regional, front) == Some(restored) && ReadScope(c, regional, name) == Some(scope)
    requires forall e <- restored :: e.key != scope
    ensures RestoreEntries(c, regional, front + [Item(name, value)]) == Some(restored + [Item(scope, value)])
  {
    var fields := front + [Item(name, value)];
    assert fields[..|fields| - 1] == front && fields[|fields| - 1] == Item(name, value);
    PutNew(restored, scope, value);
  }

  lemma NamedSnoc(c: Codecs, front: seq<Item<Scope, Value>>, last: Item<Scope, Value>)
    ensures Named(c, front + [last]) == Named(c, front) + [Item(DiskKey(c, last.key), last.value)]
  {
  }

  lemma EntryBack(c: Codecs, front: seq<Item<Scope, Value>>, last: Item<Scope, Value>, regional: bool)
    requires Inverse(c) && NulFree(last.key) && last.key.Region? == regional && forall e <- front :: e.key != last.key
    requires RestoreEntries(c, regional, Named(c, front)) == Some(front)
    ensures RestoreEntries(c, regional, Named(c, front + [last])) == Some(front + [last])
  {
    ScopeRoundTripIff(c, last.key);
    hide Inverse, ReadScope, DiskKey, RestoreEntries, NulFree;
    NamedSnoc(c, front, last);
    RestoreSnoc(c, Named(c, front), DiskKey(c, last.key), last.value, regional, front, last.key);
  }

  lemma {:induction false} EntriesBack(c: Codecs, entries: seq<Item<Scope, Value>>, regional: bool)
    requires Inverse(c) && CleanScopes(entries, regional)
    ensures RestoreEntries(c, regional, Named(c, entries)) == Some(entries)
  {
    if entries != [] {
      hide Inverse, RestoreEntries, CleanScopes, NulFree;
      var front, last := entries[..|entries| - 1], entries[|entries| - 1];
      EntriesBack(c, front, regional);
      EntryBack(c, front, last, regional);
      assert front + [last] == entries;
    }
  }

  /** Disk keys carry a NUL, so the hook leaves the dictionary of them alone. */
  lemma NamedUntagged(c: Codecs, entries: seq<Item<Scope, Value>>)
    ensures Untagged(c, Named(c, entries))
  {
    forall i | 0 <= i < |entries| ensures NUL in Named(c, entries)[i].key {
      var scope := entries[i].key;
      assert DiskKey(c, scope)[|scope.account|] == NUL;
    }
    assert NUL !in REGION_TAG && NUL !in SCOPED_TAG && NUL !in BYTES_TAG;
  }

  lemma ScopedBack(c: Codecs, entries: seq<Item<Scope, Value>>, regional: bool, tag: string)
    requires Inverse(c) && CleanScopes(entries, regional) && tag == if regional then REGION_TAG else SCOPED_TAG
    requires forall i :: 0 <= i < |entries| ==> Decode(c, Encode(c, entries[i].value)) == Some(entries[i].value)
    ensures Decode(c, JObject([Item(tag, JBoolean(true)), Item(DATA, JObject(EncodeEntries(c, entries)))]))
         == Some(if regional then RegionScoped(entries) else AccountScoped(entries))
  {
    var named := Named(c, entries);
    DiskItemsNamed(c, entries, regional);
    EntriesAsFields(c, entries);
    EncodeDistinct(c, named);
    FieldsBack(c, named);
    NamedUntagged(c, entries);
    assert Decode(c, JObject(EncodeEntries(c, entries))) == Some(Dict(named));
    EntriesBack(c, entries, regional);
    var outer := [Item(tag, Boolean(true)), Item(DATA, Dict(named))];
    OuterBack(c, tag, JObject(EncodeEntries(c, entries)), Dict(named));
    OuterTagged(c, tag, Dict(named));
  }

  lemma DecodeSnoc(c: Codecs, front: seq<Item<string, Json>>, key: string, j: Json)
    requires DecodeFields(c, front).Some? && Decode(c, j).Some?
    ensures DecodeFields(c, front + [Item(key, j)]) == Some(Put(DecodeFields(c, front).value, key, Decode(c, j).value))
  {
    var fields := front + [Item(key, j)];
    assert fields[..|fields| - 1] == front && fields[|fields| - 1] == Item(key, j);
  }

  lemma OuterBack(c: Codecs, tag: string, j: Json, v: Value)
    requires tag != DATA && Decode(c, j) == Some(v)
    ensures DecodeFields(c, [Item(tag, JBoolean(true)), Item(DATA, j)]) == Some([Item(tag, Boolean(true)), Item(DATA, v)])
  {
    var first := [Item(tag, JBoolean(true))];
    DecodeSnoc(c, [], tag, JBoolean(true));
    assert [] + first == first;
    DecodeSnoc(c, first, DATA, j);
    assert first + [Item(DATA, j)] == [Item(tag, JBoolean(true)), Item(DATA, j)];
    var decoded: seq<Item<string, Value>> := [Item(tag, Boolean(true))];
    assert Put([], tag, Boolean(true)) == decoded;
    PutNew(decoded, DATA, v);
    assert decoded + [Item(DATA, v)] == [Item(tag, Boolean(true)), Item(DATA, v)];
  }

  lemma OuterTagged(c: Codecs, tag: string, v: Value)
    requires tag == REGION_TAG || tag == SCOPED_TAG
    ensures var fields := [Item(tag, Boolean(true)), Item(DATA, v)];
      && Tagged(c, fields, REGION_TAG) == (tag == REGION_TAG)
      && Tagged(c, fields, SCOPED_TAG) == (tag == SCOPED_TAG)
      && Find(fields, DATA) == Some(v)
  {
    var fields := [Item(tag, Boolean(true)), Item(DATA, v)];
    assert fields[..1] == [Item(tag, Boolean(true))] && fields[..1][..0] == [];
  }

  lemma {:induction false} RoundTrip(c: Codecs, v: Value)
    requires Inverse(c) && Storable(c, v)
    ensures Decode(c, Encode(c, v)) == Some(v)
    decreases v
  {
    match v
    case List(items) =>
      forall i | 0 <= i < |items| ensures Decode(c, Encode(c, items[i])) == Some(items[i]) {
        RoundTrip(c, items[i]);
      }
      ListBack(c, items);
    case Dict(fields) =>
      forall i | 0 <= i < |fields| ensures Decode(c, Encode(c, fields[i].value)) == Some(fields[i].value) {
        assert fields[i].value < fields[i];
        RoundTrip(c, fields[i].value);
      }
      EncodeDistinct(c, fields);
      FieldsBack(c, fields);
    case AccountScoped(entries) =>
      forall i | 0 <= i < |entries| ensures Decode(c, Encode(c, entries[i].value)) == Some(entries[i].value) {
        assert entries[i].value < entries[i];
        RoundTrip(c, entries[i].value);
      }
      ScopedBack(c, entries, false, SCOPED_TAG);
    case RegionScoped(entries) =>
      forall i | 0 <= i < |entries| ensures Decode(c, Encode(c, entries[i].value)) == Some(entries[i].value) {
        assert entries[i].value < entries[i];
        RoundTrip(c, entries[i].value);
      }
      ScopedBack(c, entries, true, REGION_TAG);
    case Bytes(b) => BytesBack(c, b);
    case _ =>
  }

  lemma BytesBack(c: Codecs, b: seq<int>)
    requires Inverse(c)
    ensures Decode(c, Encode(c, Bytes(b))) == Some(Bytes(b))
  {
    var fields := [Item(BYTES_TAG, JText(c.pack(b)))];
    assert fields[..0] == [];
    assert DecodeFields(c, fields) == Some([Item(BYTES_TAG, Text(c.pack(b)))]);
  }

  // ---------------------------------------------------------------- what decoding can give

  lemma {:induction false} RestoredStorable(c: Codecs, regional: bool, fields: seq<Item<string, Value>>)
    requires AllStorable(c, fields) && RestoreEntries(c, regional, fields).Some?
    ensures var entries := RestoreEntries(c, regional, fields).value; AllStorable(c, entries) && CleanScopes(entries, regional)
  {
    if fields != [] {
      var front, last := fields[..|fields| - 1], fields[|fields| - 1];
      RestoredStorable(c, regional, front);
      var entries := RestoreEntries(c, regional, front).value;
      var scope := ReadScope(c, regional, last.key).value;
      PutDistinct(entries, scope, last.value);
      PutStorable(c, entries, scope, last.value);
    }
  }

  lemma {:induction false} PutStorable<K>(c: Codecs, items: seq<Item<K, Value>>, key: K, value: Value)
    requires AllStorable(c, items) && Storable(c, value) && Distinct(items)
    ensures AllStorable(c, Put(items, key, value))
  {
    PutDistinct(items, key, value);
    var r := Put(items, key, value);
    forall i | 0 <= i < |r| ensures Storable(c, r[i].value) {
      assert r[i] in r;
      if r[i] != Item(key, value) {
        var j :| 0 <= j < |items| && items[j] == r[i];
      }
    }
  }

  lemma HookStorable(c: Codecs, fields: seq<Item<string, Value>>)
    requires AllStorable(c, fields) && Distinct(fields) && Hook(c, fields).Some?
    ensures Storable(c, Hook(c, fields).value)
  {
    var data := Find(fields, DATA);
    if Tagged(c, fields, REGION_TAG) || Tagged(c, fields, SCOPED_TAG) {
      var i :| 0 <= i < |fields| && fields[i] == Item(DATA, data.value);
      assert Storable(c, fields[i].value);
      RestoredStorable(c, Tagged(c, fields, REGION_TAG), data.value.fields);
    }
  }

  lemma {:induction false} DecodedStorable(c: Codecs, j: Json)
    requires Decode(c, j).Some?
    ensures Storable(c, Decode(c, j).value)
    decreases j
  {
    match j
    case JList(items) => DecodedListStorable(c, items);
    case JObject(fields) =>
      DecodedFieldsStorable(c, fields);
      HookStorable(c, DecodeFields(c, fields).value);
    case _ =>
  }

  lemma {:induction false} DecodedListStorable(c: Codecs, items: seq<Json>)
    requires DecodeList(c, items).Some?
    ensures forall i :: 0 <= i < |DecodeList(c, items).value| ==> Storable(c, DecodeList(c, items).value[i])
    decreases items
  {
    if items != [] {
      DecodedListStorable(c, items[..|items| - 1]);
      DecodedStorable(c, items[|items| - 1]);
    }
  }

  lemma {:induction false} DecodedFieldsStorable(c: Codecs, fields: seq<Item<string, Json>>)
    requires DecodeFields(c, fields).Some?
    ensures AllStorable(c, DecodeFields(c, fields).value) && Distinct(DecodeFields(c, fields).value)
    decreases fields
  {
    if fields != [] {
      var last := fields[|fields| - 1];
      assert last.value < last;
      var front := DecodeFields(c, fields[..|fields| - 1]).value;
      DecodedFieldsStorable(c, fields[..|fields| - 1]);
      DecodedStorable(c, last.value);
      PutDistinct(front, last.key, Decode(c, last.value).value);
      PutStorable(c, front, last.key, Decode(c, last.value).value);
    }
  }

  /** A saved value comes back exactly when it is storable. */
  lemma RoundTripIff(c: Codecs, v: Value)
    requires Inverse(c)
    ensures Decode(c, Encode(c, v)) == Some(v) <==> Storable(c, v)
  {
    if Decode(c, Encode(c, v)) == Some(v) {
      DecodedStorable(c, Encode(c, v));
    }
    if Storable(c, v) {
      RoundTrip(c, v);
    }
  }

  /** Distinct storable values never share a saved form. */
  lemma EncodingInjective(c: Codecs, v: Value, w: Value)
    requires Inverse(c) && Storable(c, v) && Storable(c, w)
    ensures Encode(c, v) == Encode(c, w) <==> v == w
  {
    RoundTrip(c, v);
    RoundTrip(c, w);
  }
}
