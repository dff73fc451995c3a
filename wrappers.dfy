/** An optional value: `None` stands for JavaScript's `undefined`, an absent
    request-body field, or SQL's NULL, depending on where it is used. */
module Wrappers {

  datatype Option<+T> = None | Some(value: T)

}
