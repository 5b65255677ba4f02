/**
 * The ordered-ID generator, abstracted. The real generator is not part of this
 * model; it is assumed to hand out strictly increasing tokens, which are modelled
 * as natural numbers drawn from a counter.
 */
module OrderedIDs {

  type OrderedID = nat

  /** The generator's state: the last token it issued (0 before the first call). */
  datatype Generator = Generator(last: OrderedID)

  /** `getOrderedID`: a token strictly larger than every token issued so far. */
  function Mint(g: Generator): (r: (OrderedID, Generator))
    ensures g.last < r.0
    ensures r.1.last == r.0
  {
    (g.last + 1, Generator(g.last + 1))
  }
}
