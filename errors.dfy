/** Outcomes shared by the loader and the fitter. Python's `float()` raises
    `ValueError` on a string it cannot read, and list indexing raises
    `IndexError` past the end; both abort the whole run. */
module Errors {

  datatype Option<T> = None | Some(value: T)

  datatype Error =
    | ValueError(text: string)  // float() rejected `text`
    | IndexError                // a list was indexed past its end

  datatype Result<T> = Ok(value: T) | Err(error: Error)
}
