/** The gene-type interface of the living-trade clade.

    The source declares an abstract protocol whose conforming types are supplied by a
    concrete trading vocabulary. Here a gene type is an opaque tag and the protocol's
    queries and static members are gathered into a `Vocabulary` value that every
    operation receives explicitly.
 */
module GeneTypes {

  /** A gene-type tag; what the tag denotes is up to the concrete vocabulary. */
  datatype GeneType = GeneType(tag: nat)

  /** The three sampling lists of binary, unary and leaf types, with the derived
      non-leaf and all-types lists; the generator samples from one such template. */
  datatype TypeLists = TypeLists(binaryTypes: seq<GeneType>, unaryTypes: seq<GeneType>, leafTypes: seq<GeneType>)
  {
    /** The binary types followed by the unary types. */
    function NonLeafTypes(): seq<GeneType> {
      binaryTypes + unaryTypes
    }

    /** The non-leaf types followed by the leaf types. */
    function AllTypes(): seq<GeneType> {
      NonLeafTypes() + leafTypes
    }
  }

  /** The protocol's per-type queries and its compatible-alternate choice. */
  datatype Vocabulary = Vocabulary(
    isBinaryType: GeneType -> bool,
    isUnaryType: GeneType -> bool,
    isLeafType: GeneType -> bool,
    childCount: GeneType -> nat,
    compatibleAlternate: GeneType -> GeneType)
  {
    /** The number of children the generator gives a node of type `g`, following its
        binary-then-unary-then-leaf test order. */
    function Arity(g: GeneType): nat {
      if isBinaryType(g) then 2 else if isUnaryType(g) then 1 else 0
    }

    /** A type that none of the three classification queries accepts. */
    predicate Unclassified(g: GeneType) {
      !isBinaryType(g) && !isUnaryType(g) && !isLeafType(g)
    }

    /** Point replacement keeps the number of children a type expects. */
    ghost predicate AlternatePreservesChildCount() {
      forall g :: childCount(compatibleAlternate(g)) == childCount(g)
    }
  }

  /** The all-types list is the binary, then the unary, then the leaf types, each in its
      own order. */
  lemma AllTypesLayout(tl: TypeLists)
    ensures |tl.NonLeafTypes()| == |tl.binaryTypes| + |tl.unaryTypes|
    ensures |tl.AllTypes()| == |tl.binaryTypes| + |tl.unaryTypes| + |tl.leafTypes|
    ensures forall i :: 0 <= i < |tl.binaryTypes| ==> tl.AllTypes()[i] == tl.binaryTypes[i]
    ensures forall i :: 0 <= i < |tl.unaryTypes| ==>
              tl.AllTypes()[|tl.binaryTypes| + i] == tl.unaryTypes[i]
    ensures forall i :: 0 <= i < |tl.leafTypes| ==>
              tl.AllTypes()[|tl.binaryTypes| + |tl.unaryTypes| + i] == tl.leafTypes[i]
    ensures tl.AllTypes()[..|tl.NonLeafTypes()|] == tl.NonLeafTypes()
  {
  }

  /** Membership: every listed type is in the all-types list, and the non-leaf list holds
      exactly the binary and unary types. */
  lemma AllTypesMembership(tl: TypeLists)
    ensures forall g :: g in tl.AllTypes() <==>
              g in tl.binaryTypes || g in tl.unaryTypes || g in tl.leafTypes
    ensures forall g :: g in tl.NonLeafTypes() <==> g in tl.binaryTypes || g in tl.unaryTypes
  {
  }
}
