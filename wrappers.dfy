/** Option and Result values: the model's stand-ins for Python's None and for
    raised exceptions. */
module Wrappers {

  datatype Option<+T> = None | Some(value: T)

  /** The Python exceptions the modelled code can raise or turn into responses. */
  datatype Error =
    | Http404            // django.http.Http404 / get_object_or_404
    | FileNotFound       // os.unlink on a path that does not exist
    | ValueError         // datetime.date out of range, int() of a non-number
    | IndexError         // indexing an empty string or sequence

  datatype Result<+T> = Success(value: T) | Failure(error: Error)
}
