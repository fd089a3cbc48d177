/** Result and option values shared by the modules of this model.
    `Err` stands for a thrown IllegalArgumentException, `None` for a null reference returned
    by a lookup. */
module Outcomes {

  datatype Result<T> = Ok(value: T) | Err(message: string)

  datatype Option<T> = None | Some(value: T)
}
