/**
 * Navigation events. Starting another screen is represented by the
 * intent value that would be passed to `startActivity`, never by a
 * screen transition.
 */
module Navigation {
  import opened Wrappers

  /** The screen class an intent starts (`MainActivity::class.java`, `ButtonActivity::class.java`). */
  datatype Target = MainActivityClass | ButtonActivityClass

  /** An intent: the screen to start and its string extras. */
  datatype Intent = Intent(target: Target, extras: map<string, string>)

  /** The extra under which the first screen passes the chosen label. */
  const ButtonTextKey: string := "button_text"

  /** `getStringExtra`: the extra stored under the key, if any. */
  function GetStringExtra(intent: Intent, key: string): (r: Option<string>)
    ensures r.Some? <==> key in intent.extras
    ensures r.Some? ==> r.value == intent.extras[key]
  {
    if key in intent.extras then Some(intent.extras[key]) else None
  }
}
