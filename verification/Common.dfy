/** Two definitions shared by otherwise unrelated modules. */
module Common {

  datatype Option<T> = None | Some(value: T)

  function Min(x: nat, y: nat): nat {
    if x < y then x else y
  }
}
