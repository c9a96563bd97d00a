/** Error values and results shared by the whole model. */
module Errors {

  datatype Option<+T> = None | Some(value: T)

  /** The file-system calls whose failure the model tells apart. */
  datatype IoOp = Seek | Read | Write | Truncate | Close | Remove

  datatype Error =
    | InvalidBookmark                      // model.ErrInvalidBookmark: a line with fewer than two fields
    | DuplicateBookmark(url: string)       // model.ErrDuplicateBookmark, wrapped with the offending url
    | InvalidUrl(url: string)              // url.ParseRequestURI rejected the url
    | Io(op: IoOp)                         // a failing file-system call
    | External(what: string)               // an error handed in by a collaborator outside the model
    | Joined(errs: seq<Error>)             // errors.Join's *joinError: the non-nil errors, in order

  datatype Result<+T> = Ok(value: T) | Err(error: Error)

  /** The non-nil errors among two, in order. */
  function NonNil(a: Option<Error>, b: Option<Error>): seq<Error> {
    (if a.Some? then [a.value] else []) + (if b.Some? then [b.value] else [])
  }

  /** errors.Join of two possibly-nil errors: nil when both are nil, otherwise a new
      joined error wrapping the non-nil ones, even when there is only one. */
  function Join(a: Option<Error>, b: Option<Error>): (r: Option<Error>)
    ensures r.None? <==> a.None? && b.None?
    ensures r.Some? ==> r.value.Joined? && |r.value.errs| == |NonNil(a, b)|
    ensures r.Some? ==> forall i :: 0 <= i < |r.value.errs| ==> r.value.errs[i] == NonNil(a, b)[i]
  {
    if a.None? && b.None? then None else Some(Joined(NonNil(a, b)))
  }

  /** errors.Is on the model's errors: the error itself, or one that a joined error wraps. */
  predicate Is(e: Error, target: Error)
    decreases e
  {
    e == target || (e.Joined? && exists i :: 0 <= i < |e.errs| && Is(e.errs[i], target))
  }

  /** A joined error is each of its parts to errors.Is, and nothing else. */
  lemma JoinIs(a: Option<Error>, b: Option<Error>, target: Error)
    requires !target.Joined?
    ensures (Join(a, b).Some? && Is(Join(a, b).value, target))
        <==> (a.Some? && Is(a.value, target)) || (b.Some? && Is(b.value, target))
  {
    var r := Join(a, b);
    if r.Some? {
      var es := r.value.errs;
      if a.Some? && Is(a.value, target) {
        assert es[0] == a.value;
      }
      if b.Some? && Is(b.value, target) {
        assert es[|es| - 1] == b.value;
      }
      if Is(r.value, target) {
        var i :| 0 <= i < |es| && Is(es[i], target);
        assert es[i] == NonNil(a, b)[i];
      }
    }
  }
}
