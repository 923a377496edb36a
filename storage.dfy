/**
 * The browser's `localStorage`: a string-keyed store shared by every module of the client.
 * `JSON.stringify` is treated as the identity, so a stored value is either raw text or one of the
 * structured documents the client serialises.
 */
module Storage {
  import opened Wrappers
  import opened Types

  /** The keys the client uses. */
  const UserKey := "user"
  const TokenKey := "token"
  const AuthTokenKey := "authToken"
  const EntriesKey := "timeEntries"

  /**
   * A stored string: raw text (a token, or anything else written to storage), the JSON text of a
   * user record, or the JSON text of an array of time entries.
   */
  datatype Stored = Raw(text: string) | UserJson(user: User) | EntriesJson(entries: seq<TimeEntry>)

  /**
   * JavaScript truthiness of `localStorage.getItem(k)`: `null` and the empty string are falsy.
   * JSON text is never empty.
   */
  predicate Truthy(v: Option<Stored>)
  {
    match v
    case None => false
    case Some(Raw(t)) => t != ""
    case Some(_) => true
  }

  /** The value under `key`, or `null`. */
  function Lookup(items: map<string, Stored>, key: string): (v: Option<Stored>)
    ensures v.Some? <==> key in items
    ensures v.Some? ==> v.value == items[key]
  {
    if key in items then Some(items[key]) else None
  }

  /** `JSON.parse` of a stored string as a user: it succeeds exactly on the JSON text of a user. */
  function ParseUser(v: Stored): (r: Option<User>)
    ensures r.Some? <==> v.UserJson?
    ensures r.Some? ==> v == UserJson(r.value)
  {
    if v.UserJson? then Some(v.user) else None
  }

  /** `JSON.parse` of a stored string as an array of time entries. */
  function ParseEntries(v: Stored): (r: Option<seq<TimeEntry>>)
    ensures r.Some? <==> v.EntriesJson?
    ensures r.Some? ==> v == EntriesJson(r.value)
  {
    if v.EntriesJson? then Some(v.entries) else None
  }

  /**
   * The storage invariant the client maintains: a JSON document only ever sits under the key the
   * client writes it to, so every other key (in particular `token` and `authToken`) holds raw text.
   */
  predicate WellFormed(items: map<string, Stored>)
  {
    forall k :: k in items ==>
      (items[k].UserJson? ==> k == UserKey) && (items[k].EntriesJson? ==> k == EntriesKey)
  }

  /** The raw text under a key that holds raw text, as `getItem` returns it. */
  function TextAt(items: map<string, Stored>, key: string): (r: Option<string>)
    requires WellFormed(items)
    requires key != UserKey && key != EntriesKey
    ensures r.None? <==> key !in items
    ensures r.Some? ==> items[key] == Raw(r.value)
  {
    if key in items then Some(items[key].text) else None
  }

  /** `localStorage` itself. */
  class LocalStorage {
    var items: map<string, Stored>

    predicate Valid()
      reads this
    {
      WellFormed(items)
    }

    constructor (initial: map<string, Stored>)
      requires WellFormed(initial)
      ensures Valid() && items == initial
    {
      items := initial;
    }

    /** `localStorage.getItem(key)`. */
    function GetItem(key: string): (v: Option<Stored>)
      reads this
      ensures key in items ==> v == Some(items[key])
      ensures key !in items ==> v == None
    {
      Lookup(items, key)
    }

    /** `localStorage.setItem(key, value)`. */
    method SetItem(key: string, value: Stored)
      requires Valid()
      requires value.UserJson? ==> key == UserKey
      requires value.EntriesJson? ==> key == EntriesKey
      modifies this
      ensures Valid()
      ensures items == old(items)[key := value]
    {
      items := items[key := value];
    }

    /** `localStorage.removeItem(key)`. */
    method RemoveItem(key: string)
      requires Valid()
      modifies this
      ensures Valid()
      ensures items == old(items) - {key}
    {
      items := items - {key};
    }
  }
}
