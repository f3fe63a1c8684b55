/** Graph ids pack a node index and a node version into 64 bits. */
module GraphIds {
  import opened MachineInts

  /** An id; 0 is never issued. */
  type Id = nat

  const MAX_VERSION := TWO_32 - 1
  /** Node indices are non-negative 32-bit numbers. */
  const MAX_NODES := 0x8000_0000

  function MakeId(index: int, version: nat): Id {
    version * TWO_32 + UInt32(index)
  }

  function NodeIndex(id: Id): int {
    Int32(id)
  }

  function NodeVersion(id: Id): nat {
    UInt32(id / TWO_32)
  }

  /** Packing loses nothing. */
  lemma UnpackPacked(index: int, version: nat)
    requires 0 <= index < MAX_NODES && version <= MAX_VERSION
    ensures NodeIndex(MakeId(index, version)) == index && NodeVersion(MakeId(index, version)) == version
    ensures MakeId(index, version) == version * 0x1_0000_0000 + index
    ensures MakeId(index, version) < TWO_32 * TWO_32 && (version > 0 ==> MakeId(index, version) != 0)
  {
    ModUnique(MakeId(index, version), TWO_32, version, index);
  }

  /** Every 64-bit number is the packing of what it unpacks to. */
  lemma PackUnpacked(id: Id)
    requires id < TWO_32 * TWO_32
    ensures MakeId(NodeIndex(id), NodeVersion(id)) == id
  {
  }
}
