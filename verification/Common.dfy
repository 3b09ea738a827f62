/** Vocabulary shared by all modules: bytes, byte ranges, optional values and undefined behaviour. */
module Common {

  type byte = x: int | 0 <= x < 256

  datatype Option<+T> = None | Some(value: T)

  /** Fault stands for C behaviour that is undefined: a load, store or table index out of bounds. */
  datatype Outcome<+T> = Fault | Ok(value: T) {
    predicate IsFailure() {
      Fault?
    }

    function PropagateFailure<U>(): Outcome<U>
      requires Fault?
    {
      Fault
    }

    function Extract(): T
      requires Ok?
    {
      value
    }
  }

  /** Overwrites bytes.. from index a on; everything else is kept. */
  function Put(m: seq<byte>, a: nat, bytes: seq<byte>): (r: seq<byte>)
    requires a + |bytes| <= |m|
    ensures |r| == |m|
    ensures forall k :: 0 <= k < |m| ==> r[k] == if a <= k < a + |bytes| then bytes[k - a] else m[k]
  {
    m[..a] + bytes + m[a + |bytes|..]
  }

  /** A range that does not meet the written one reads as before. */
  lemma {:induction false} PutElsewhere(m: seq<byte>, a: nat, bytes: seq<byte>, x: nat, y: nat)
    requires a + |bytes| <= |m| && x <= y <= |m|
    requires y <= a || a + |bytes| <= x
    ensures Put(m, a, bytes)[x..y] == m[x..y]
  {
  }

  lemma {:induction false} PutHere(m: seq<byte>, a: nat, bytes: seq<byte>)
    requires a + |bytes| <= |m|
    ensures Put(m, a, bytes)[a..a + |bytes|] == bytes
  {
  }
}
