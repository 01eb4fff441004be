/** JSON values as the routes see them: request bodies and serialised records. */
module Json {

  datatype Option<+T> = None | Some(value: T)

  /** A JSON scalar. Floats, booleans, arrays and nested objects are not modelled. */
  datatype Value = Null | Int(n: int) | Str(s: string)

  /** A JSON object: a parsed request body, or the dictionary a `serialize()` builds. */
  type Object = map<string, Value>

  /** The value under `key` when the body carries it, otherwise `fallback`.
      This is both the "fill a default when absent" step of the create routes
      and the "copy only present keys" step of the update routes. */
  function Pick(body: Object, key: string, fallback: Value): (v: Value)
    ensures key in body ==> v == body[key]
    ensures key !in body ==> v == fallback
  {
    if key in body then body[key] else fallback
  }

  /** The first key of `required`, in order, that the body lacks: the key the
      create routes name in their "... is required" reply. */
  function FirstMissing(body: Object, required: seq<string>): (r: Option<string>)
    ensures r.None? <==> forall i :: 0 <= i < |required| ==> required[i] in body
    ensures r.Some? ==> exists i :: 0 <= i < |required| && required[i] == r.value && r.value !in body
                                    && forall j :: 0 <= j < i ==> required[j] in body
  {
    if required == [] then None
    else if required[0] !in body then Some(required[0])
    else
      var r := FirstMissing(body, required[1..]);
      assert r.Some? ==> exists i :: 0 < i < |required| && required[i] == r.value && r.value !in body
                                     && forall j :: 0 <= j < i ==> required[j] in body by {
        if r.Some? {
          var i :| 0 <= i < |required| - 1 && required[1..][i] == r.value && r.value !in body
                   && forall j :: 0 <= j < i ==> required[1..][j] in body;
          assert forall j :: 0 <= j < i + 1 ==> required[j] in body by {
            forall j | 0 <= j < i + 1 ensures required[j] in body {
              if j > 0 { assert required[j] == required[1..][j - 1]; }
            }
          }
        }
      }
      r
  }
}
