/** The persistence helpers of the events store, `getStoredData` and
    `setStoredData`.  The platform key-value store is an abstract map from
    key to text; a failing read is an absent key, and every write is taken
    to succeed (the source swallows a failing write and carries on, which
    is not modelled).  `JSON.parse` and `JSON.stringify` are outside the model
    and enter as function parameters. */
module Storage {
  import opened Optional

  type KeyValue = map<string, string>

  /** The characters `String.prototype.trim` strips: the ECMAScript
      WhiteSpace and LineTerminator code points. */
  predicate IsTrimmable(c: char) {
    || '\U{0009}' <= c <= '\U{000D}'
    || c == ' ' || c == '\U{00A0}' || c == '\U{1680}'
    || '\U{2000}' <= c <= '\U{200A}'
    || c == '\U{2028}' || c == '\U{2029}' || c == '\U{202F}' || c == '\U{205F}'
    || c == '\U{3000}' || c == '\U{FEFF}'
  }

  function TrimStart(s: string): (t: string)
    ensures |t| <= |s| && t == s[|s| - |t|..]
    ensures forall k :: 0 <= k < |s| - |t| ==> IsTrimmable(s[k])
    ensures |t| > 0 ==> !IsTrimmable(t[0])
  {
    if |s| > 0 && IsTrimmable(s[0]) then TrimStart(s[1..]) else s
  }

  function TrimEnd(s: string): (t: string)
    ensures |t| <= |s| && t == s[..|t|]
    ensures forall k :: |t| <= k < |s| ==> IsTrimmable(s[k])
    ensures |t| > 0 ==> !IsTrimmable(t[|t| - 1])
  {
    if |s| > 0 && IsTrimmable(s[|s| - 1]) then TrimEnd(s[..|s| - 1]) else s
  }

  /** `s.trim()`: `s` with its leading and trailing white space removed. */
  function Trim(s: string): (t: string)
    ensures exists i, j ::
      (&& 0 <= i <= j <= |s| && t == s[i..j]
       && (forall k :: 0 <= k < i ==> IsTrimmable(s[k]))
       && (forall k :: j <= k < |s| ==> IsTrimmable(s[k])))
    ensures |t| > 0 ==> !IsTrimmable(t[0]) && !IsTrimmable(t[|t| - 1])
  {
    var front := TrimStart(s);
    var t := TrimEnd(front);
    var i := |s| - |front|;
    assert t == s[i..i + |t|];
    t
  }

  /** Text with nothing to strip at either end is its own trimmed form. */
  lemma TrimNoOp(s: string)
    requires |s| > 0 && !IsTrimmable(s[0]) && !IsTrimmable(s[|s| - 1])
    ensures Trim(s) == s
  {
  }

  /** The texts `getStoredData` treats as "nothing stored" without touching
      the key: the empty string (falsy) and the literals `undefined`, `null`. */
  predicate IsEmptyMarker(text: string) {
    text == "" || text == "undefined" || text == "null"
  }

  /** The sanity check before parsing: the trimmed text opens an object or
      an array. */
  predicate LooksLikeJson(trimmed: string) {
    |trimmed| > 0 && (trimmed[0] == '{' || trimmed[0] == '[')
  }

  /** The outcome of a read: the decoded value, if any, and the key-value
      store afterwards (a corrupt entry is deleted). */
  datatype Fetched<T> = Fetched(value: Option<T>, storage: KeyValue)

  /** `getStoredData(key)`.  `parse` stands for `JSON.parse` followed by the
      caller's typing; `None` is a thrown parse error. */
  function GetStoredData<T>(kv: KeyValue, key: string, parse: string -> Option<T>): (r: Fetched<T>)
    ensures key !in kv || IsEmptyMarker(kv[key]) ==> r == Fetched(None, kv)
    ensures key in kv && !IsEmptyMarker(kv[key]) && !LooksLikeJson(Trim(kv[key])) ==>
      r == Fetched(None, kv - {key})
    ensures key in kv && !IsEmptyMarker(kv[key]) && LooksLikeJson(Trim(kv[key])) ==>
      r.value == parse(Trim(kv[key]))
      && r.storage == (if r.value.None? then kv - {key} else kv)
    ensures r.value.Some? ==> r.storage == kv
    ensures r.storage == kv || r.storage == kv - {key}
  {
    if key !in kv || IsEmptyMarker(kv[key]) then Fetched(None, kv)
    else
      var trimmed := Trim(kv[key]);
      if !LooksLikeJson(trimmed) then Fetched(None, kv - {key})
      else
        match parse(trimmed)
        case Some(v) => Fetched(Some(v), kv)
        case None => Fetched(None, kv - {key})
  }

  /** `setStoredData(key, data)`: no data removes the key (rather than
      storing an encoded `null`); data is written as its encoding. */
  function SetStoredData<T>(kv: KeyValue, key: string, data: Option<T>, stringify: T -> string): (r: KeyValue)
    ensures data.None? ==> key !in r
    ensures data.Some? ==> key in r && r[key] == stringify(data.value)
    ensures forall k :: k != key ==> (k in r <==> k in kv) && (k in r ==> r[k] == kv[k])
  {
    match data
    case None => kv - {key}
    case Some(v) => kv[key := stringify(v)]
  }

  /** An encoding that reads back: the text of `v` is a JSON array (what
      `JSON.stringify` makes of a list) and parsing it gives `v`. */
  predicate RoundTrips<T(==)>(v: T, parse: string -> Option<T>, stringify: T -> string) {
    var text := stringify(v);
    |text| >= 2 && text[0] == '[' && text[|text| - 1] == ']' && parse(text) == Some(v)
  }

  /** Write then read: a list stored with an encoding that round-trips is
      read back unchanged, and the read deletes nothing. */
  lemma StoreThenRead<T>(kv: KeyValue, key: string, v: T, parse: string -> Option<T>, stringify: T -> string)
    requires RoundTrips(v, parse, stringify)
    ensures var written := SetStoredData(kv, key, Some(v), stringify);
            GetStoredData(written, key, parse) == Fetched(Some(v), written)
  {
    var text := stringify(v);
    TrimNoOp(text);
  }

  /** A key holding the encoding of `v` reads back as `v`, and the read
      deletes nothing. */
  lemma ReadEncoded<T>(kv: KeyValue, key: string, v: T, parse: string -> Option<T>, stringify: T -> string)
    requires RoundTrips(v, parse, stringify)
    requires key in kv && kv[key] == stringify(v)
    ensures GetStoredData(kv, key, parse) == Fetched(Some(v), kv)
  {
    TrimNoOp(kv[key]);
  }

  /** Clearing a key and reading it gives nothing and leaves the store as
      it was written. */
  lemma ClearThenRead<T>(kv: KeyValue, key: string, parse: string -> Option<T>, stringify: T -> string)
    ensures var written := SetStoredData(kv, key, None, stringify);
            GetStoredData(written, key, parse) == Fetched(None, written)
  {
  }

  /** Reading twice is reading once: the first read already removed any
      corrupt entry, so the second gives the same value and store. */
  lemma ReadIsIdempotent<T>(kv: KeyValue, key: string, parse: string -> Option<T>)
    ensures var first := GetStoredData(kv, key, parse);
            GetStoredData(first.storage, key, parse) == first
  {
  }

  /** A read depends only on its own key: removing or changing another key
      changes neither the value read nor what the read does to this key. */
  lemma ReadIgnoresOtherKeys<T>(kv: KeyValue, kv': KeyValue, key: string, parse: string -> Option<T>)
    requires (key in kv <==> key in kv') && (key in kv ==> kv[key] == kv'[key])
    ensures GetStoredData(kv, key, parse).value == GetStoredData(kv', key, parse).value
    ensures GetStoredData(kv', key, parse).storage == kv' - (kv.Keys - GetStoredData(kv, key, parse).storage.Keys)
  {
    var r, r' := GetStoredData(kv, key, parse), GetStoredData(kv', key, parse);
    if r.storage == kv {
      assert kv.Keys - r.storage.Keys == {};
      assert r'.storage == kv';
    } else {
      assert r.storage == kv - {key} && key in kv;
      assert kv.Keys - r.storage.Keys == {key};
      assert r'.storage == kv' - {key};
    }
  }
}
