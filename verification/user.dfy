/**
 * The `User` record and its `toArray` projection. The projection is what a
 * caller may expose: it carries the id, the email and the formatted creation
 * time, and never the password hash.
 */
module Users {
  import opened Wrappers
  import opened Externals

  /**
   * A registered account. The PHP constructor promotes its four parameters
   * to public properties unchanged, which is exactly what a datatype
   * constructor does.
   */
  datatype User = User(id: int, email: Bytes, password: Bytes, createdAt: Timestamp)

  /** A value stored in the array `toArray` returns. */
  datatype Value = IntValue(i: int) | StringValue(s: Bytes)

  /** An ordered PHP array with string keys. */
  type Assoc = seq<(string, Value)>

  const IdKey: string := "id"
  const EmailKey: string := "email"
  const CreatedAtKey: string := "created_at"
  const PasswordKey: string := "password"

  /** The keys of an array, in order. */
  function Keys(a: Assoc): (ks: seq<string>)
    ensures |ks| == |a|
    ensures forall i :: 0 <= i < |a| ==> ks[i] == a[i].0
  {
    if a == [] then [] else [a[0].0] + Keys(a[1..])
  }

  /** `$a[$k] ?? null`: the value under the first occurrence of key `k`. */
  function Lookup(a: Assoc, k: string): (r: Option<Value>)
    ensures r.Some? <==> k in Keys(a)
    ensures r.Some? ==> exists i :: 0 <= i < |a| && a[i] == (k, r.value)
  {
    if a == [] then None
    else if a[0].0 == k then Some(a[0].1)
    else Lookup(a[1..], k)
  }

  /**
   * `$user->toArray()`; `format` stands for
   * `DateTime::format('Y-m-d H:i:s')`, which the model leaves abstract.
   */
  function ToArray(u: User, format: Timestamp -> Bytes): (a: Assoc)
    ensures Keys(a) == [IdKey, EmailKey, CreatedAtKey]
    ensures PasswordKey !in Keys(a)
    ensures Lookup(a, IdKey) == Some(IntValue(u.id))
    ensures Lookup(a, EmailKey) == Some(StringValue(u.email))
    ensures Lookup(a, CreatedAtKey) == Some(StringValue(format(u.createdAt)))
  {
    [ (IdKey, IntValue(u.id)),
      (EmailKey, StringValue(u.email)),
      (CreatedAtKey, StringValue(format(u.createdAt))) ]
  }

  /**
   * The projection is determined by the id, the email and the formatted
   * timestamp, and by nothing else: two users project alike exactly when
   * those agree, whatever their passwords.
   */
  lemma ToArrayDeterminedBy(u: User, v: User, format: Timestamp -> Bytes)
    ensures ToArray(u, format) == ToArray(v, format)
        <==> u.id == v.id && u.email == v.email && format(u.createdAt) == format(v.createdAt)
  {
  }

  /** Changing only the password never changes the projection. */
  lemma ToArrayIgnoresPassword(u: User, password: Bytes, format: Timestamp -> Bytes)
    ensures ToArray(u.(password := password), format) == ToArray(u, format)
  {
  }
}
