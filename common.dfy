/** Small value types shared by the model: Java's nullable results and the
    boolean-plus-new-state outcome of the stores' operations. */
module Common {

  /** A reference that may be null. */
  datatype Option<+T> = None | Some(value: T)

  /** What a store operation reports (`ok`, its boolean result) and the state it leaves. */
  datatype Step<S> = Step(ok: bool, state: S)

  /** `List.remove(i)`: the sequence without its element at index `i`. */
  function Remove<T>(s: seq<T>, i: nat): (r: seq<T>)
    requires i < |s|
    ensures |r| == |s| - 1
    ensures forall k :: 0 <= k < i ==> r[k] == s[k]
    ensures forall k :: i <= k < |r| ==> r[k] == s[k + 1]
  {
    s[..i] + s[i + 1..]
  }
}
