/** Types shared by every part of the model. */
module Prelude {

  /** ACE_UINT32 arithmetic wraps at this value. */
  const UINT32 := 0x1_0000_0000

  datatype Option<+T> = None | Some(value: T)

  /** The result of an operation that may hit undefined behaviour: a null dereference
      or an index past the end of a list is `Fault`. */
  datatype Outcome<+T> = Ok(value: T) | Fault
  {
    predicate IsFailure() { Fault? }
    function PropagateFailure<U>(): Outcome<U> requires Fault? { Fault }
    function Extract(): T requires Ok? { value }
  }

  type byte = b: int | 0 <= b < 256

  /** An object reference as the proxy sees it: where it points, its repository id and
      its object key. */
  datatype ObjRef = Nil | Ref(host: string, typeId: string, key: seq<byte>)
}
