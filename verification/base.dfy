/** Shared building blocks: an optional value (JavaScript's `null`/`undefined`
    versus a present value) and the browser's two key-value stores. */
module Base {

  /** `None` stands for JavaScript's `null` or `undefined`. */
  datatype Option<T> = None | Some(value: T)

  /** `durable` is `localStorage` (survives a restart); `session` is
      `sessionStorage` (lives as long as the browser tab). */
  datatype Storage = Storage(durable: map<string, string>, session: map<string, string>)

  const AccessTokenKey := "accessToken"
  const RefreshTokenKey := "refreshToken"
  const UserKey := "user"
  const PinVerifiedKey := "pinVerified"
  const ComplaintKey := "complaintMessage"

  /** `Storage.getItem`: the stored text, or `None` when the key is absent. */
  function GetItem(m: map<string, string>, key: string): (r: Option<string>)
    ensures r.Some? <==> key in m
    ensures r.Some? ==> r.value == m[key]
  {
    if key in m then Some(m[key]) else None
  }

  /** JavaScript truthiness of a value read from storage: present and non-empty. */
  predicate Truthy(v: Option<string>)
  {
    v.Some? && v.value != ""
  }

  /** `a` is `b` with some entries left out and the rest in their order:
      what `Array.prototype.filter` returns. */
  predicate IsSubsequence<T(==)>(a: seq<T>, b: seq<T>)
    decreases |b|
  {
    a == [] || (b != [] && ((a[0] == b[0] && IsSubsequence(a[1..], b[1..])) || IsSubsequence(a, b[1..])))
  }

  /** Putting the same element in front of both keeps a subsequence, and so
      does putting it in front of the longer one only. */
  lemma SubsequenceCons<T>(x: T, a: seq<T>, b: seq<T>)
    requires IsSubsequence(a, b)
    ensures IsSubsequence([x] + a, [x] + b) && IsSubsequence(a, [x] + b)
  {
    assert ([x] + a)[1..] == a && ([x] + b)[1..] == b;
  }
}
