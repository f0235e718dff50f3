/** Handle-table entries: class Mapping in runtime/include/alaska/alaska.hpp. */
module Handles {
  /** Where an object lies: slot `slot` of the sized page `page`, that is, at objects + slot *
      object_size, or `slot` bytes into the locality page `page`. */
  datatype Address = Address(page: nat, slot: nat)

  /** One entry of the handle table; a mapping is named by its index in the table. */
  datatype Mapping = Mapping(ptr: Address, pinned: bool, free: bool) {

    /** Storing a pointer overwrites the whole word, the pin bit and the free bit included. */
    function SetPointer(p: Address): Mapping {
      Mapping(p, false, false)
    }
  }
}
