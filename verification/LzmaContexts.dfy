// The adaptive contexts of an LZMA symbol, named by what they predict rather than by
// where either side keeps the probability.
module LzmaContexts {
  import opened Words

  // Bit trees read most significant bit first.
  datatype TreeId =
    | LitTree(lit: nat)
    | LowTree(rep: bool, posState: nat)
    | MidTree(rep: bool, posState: nat)
    | HighTree(rep: bool)
    | SlotTree(lenState: nat)

  // Bit trees read least significant bit first.
  datatype RevId = SpecTree(slot: nat) | AlignTree

  datatype Ctx =
    | IsMatch(state: nat, posState: nat)
    | IsRep(state: nat)
    | IsRepG0(state: nat)
    | IsRepG1(state: nat)
    | IsRepG2(state: nat)
    | IsRep0Long(state: nat, posState: nat)
    | LenChoice(rep: bool)
    | LenChoice2(rep: bool)
    | Node(tree: TreeId, m: nat)                      // m: 1 followed by the bits read so far
    | MatchedNode(lit: nat, matchBit: nat, m: nat)    // literal bit predicted by a match byte
    | RevNode(rev: RevId, path: seq<bit>)             // path: the bits read so far
}
