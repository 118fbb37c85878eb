/** Shared vocabulary of the chat store: optional values, handler outcomes
    and the fixed page size of the "last 50" reads. */
module Common {

  datatype Option<+T> = None | Some(value: T)

  /** Why a handler refused a request. The JSON endpoints answer with an
      error text and status 400 or 404; the form handlers (login, nickname)
      re-render their page with a flashed message instead. */
  datatype Failure =
    | BadRequest(error: string)
    | NotFound(error: string)
    | Rejected(flash: string)

  datatype Result<+T> = Ok(value: T) | Err(failure: Failure)

  function Min(a: int, b: int): int { if a <= b then a else b }

  /** Both bounded reads keep at most this many entries. */
  const PageSize: nat := 50

  /** The slice `s[-50:]`: the last min(50, |s|) elements, in their stored order. */
  function LastPage<T>(s: seq<T>): (r: seq<T>)
    ensures |r| == Min(PageSize, |s|)
    ensures r == s[|s| - |r|..]
  {
    if |s| <= PageSize then s else s[|s| - PageSize..]
  }

  /** Appending one element shows it at the end of the page, and the page
      keeps the previous page's elements, minus the oldest once it was full. */
  lemma LastPageAppend<T>(s: seq<T>, x: T)
    ensures LastPage(s + [x]) == (if |s| < PageSize then LastPage(s) else LastPage(s)[1..]) + [x]
  {
    var t := s + [x];
    if |s| < PageSize {
      assert LastPage(t) == t;
    } else {
      assert LastPage(t) == t[|t| - PageSize..];
      assert LastPage(s)[1..] == s[|s| - PageSize + 1..];
      assert t[|t| - PageSize..] == s[|s| - PageSize + 1..] + [x];
    }
  }
}
