/**
 The option dictionary of a FindTweets object: string keys mapped either to
 a single string (the monitored user) or to a list of strings (the watched
 tags), read with getOpt (a missing key reads as None) and written with setOpt.
 */
module OptionStore {

  datatype Option<+T> = None | Some(value: T)

  /** The two shapes of value the dictionary holds. */
  datatype OptValue = Text(text: string) | Items(items: seq<string>)

  type Store = map<string, OptValue>

  const UserKey: string := "user"
  const TagsKey: string := "tags"

  /** The dictionary a freshly constructed object starts with. */
  const Defaults: Store := map[UserKey := Text(""), TagsKey := Items([])]

  /** Both default keys are present and hold the shape the program expects. */
  predicate WellFormed(s: Store) {
    && UserKey in s && s[UserKey].Text?
    && TagsKey in s && s[TagsKey].Items?
  }

  /** getOpt: the value stored under `key`, or None when the key is absent
      (the KeyError the lookup raises is turned into None). */
  function GetOpt(s: Store, key: string): (r: Option<OptValue>)
    ensures r.None? <==> key !in s
    ensures r.Some? ==> r.value == s[key]
  {
    if key in s then Some(s[key]) else None
  }

  /** setOpt: store `v` under `key`, adding the key when it is new. */
  function SetOpt(s: Store, key: string, v: OptValue): (r: Store)
    ensures r.Keys == s.Keys + {key}
    ensures GetOpt(r, key) == Some(v)
  {
    s[key := v]
  }

  /** Reading back after a write: the written key yields the new value,
      every other key reads exactly as before. */
  lemma GetAfterSet(s: Store, key: string, v: OptValue, other: string)
    ensures GetOpt(SetOpt(s, key, v), other) == if other == key then Some(v) else GetOpt(s, other)
  {
  }

  /** Overwriting either default key with a value of the same shape keeps the
      dictionary well formed. */
  lemma SetKeepsWellFormed(s: Store, key: string, v: OptValue)
    requires WellFormed(s)
    requires key == UserKey ==> v.Text?
    requires key == TagsKey ==> v.Items?
    ensures WellFormed(SetOpt(s, key, v))
  {
  }

  lemma DefaultsWellFormed()
    ensures WellFormed(Defaults)
    ensures GetOpt(Defaults, UserKey) == Some(Text(""))
    ensures GetOpt(Defaults, TagsKey) == Some(Items([]))
  {
  }
}
