/** Types shared by the memory manager's parts. */
module MemTypes {
  /** Physical frame numbers and virtual page numbers. */
  type Pfn = nat
  type Vpn = nat

  datatype Option<+T> = None | Some(value: T)

  /** A predicate of the form `forall k: nat {:trigger Unfold(k)} :: Unfold(k) ==> P` says `P`, but is only unfolded in proofs
      that mention `Unfold`. */
  predicate Unfold(k: nat) {
    true
  }
}
