/** `lib/util.js`: tests for `undefined`, which the model writes as `None`. */
module Util {

  import opened Wrappers

  /** `isDefined(value)`: `value !== undefined`. */
  function IsDefined<T>(v: Option<T>): (r: bool)
    ensures r <==> v.Some?
  {
    v != None
  }

  /** `areDefined(...values)`: `values.every(isDefined)`. */
  function AreDefined<T>(vs: seq<Option<T>>): (r: bool)
    ensures r <==> forall i :: 0 <= i < |vs| ==> vs[i].Some?
  {
    if |vs| == 0 then true else IsDefined(vs[0]) && AreDefined(vs[1..])
  }

  /** `firstDefinedOf(...args)`: the leftmost defined argument, or
      `undefined` when there is none. */
  function FirstDefinedOf<T>(vs: seq<Option<T>>): (r: Option<T>)
    ensures r.None? <==> forall i :: 0 <= i < |vs| ==> vs[i].None?
    ensures r.Some? ==> exists i :: 0 <= i < |vs| && vs[i] == r && forall j :: 0 <= j < i ==> vs[j].None?
  {
    if |vs| == 0 then None
    else if IsDefined(vs[0]) then vs[0]
    else
      var r := FirstDefinedOf(vs[1..]);
      assert forall j :: 1 <= j < |vs| ==> vs[j] == vs[1..][j - 1];
      r
  }

  /** Everything is defined exactly when no argument is `undefined`, and
      then `firstDefinedOf` is the first argument. */
  lemma AreDefinedFirst<T>(vs: seq<Option<T>>)
    requires |vs| > 0
    ensures AreDefined(vs) ==> FirstDefinedOf(vs) == vs[0]
    ensures FirstDefinedOf(vs).None? ==> !AreDefined(vs)
  {
  }
}
