/** Services that answer in pages. */
module Paging {
  import opened Wrappers

  datatype Response<+T> = Failure(error: Error) | Page(items: seq<T>, next: Option<string>)

  /** A paged service: the answer to its k-th request, which carries the given token. */
  type Service<!T> = (nat, Option<string>) -> Response<T>

  /** The token the k-th request carries: the one the answer before it came with. */
  function TokenAt<T>(service: Service<T>, k: nat): Option<string> {
    if k == 0 then None
    else
      match service(k - 1, TokenAt(service, k - 1))
      case Failure(_) => None
      case Page(_, next) => next
  }

  function ResponseAt<T>(service: Service<T>, k: nat): Response<T> {
    service(k, TokenAt(service, k))
  }

  predicate Ends<T>(service: Service<T>, k: nat) {
    ResponseAt(service, k).Page? && ResponseAt(service, k).next.None?
  }

  /** What the first `n` answers hold, in page order. */
  function Items<T>(service: Service<T>, n: nat): seq<T> {
    if n == 0 then []
    else
      Items(service, n - 1) + match ResponseAt(service, n - 1) case Failure(_) => [] case Page(items, _) => items
  }

  lemma NextToken<T>(service: Service<T>, k: nat)
    ensures ResponseAt(service, k).Page? ==> TokenAt(service, k + 1) == ResponseAt(service, k).next
  {
  }

  lemma ResponseIs<T>(service: Service<T>, k: nat, token: Option<string>)
    requires token == TokenAt(service, k)
    ensures service(k, token) == ResponseAt(service, k)
  {
  }
}
