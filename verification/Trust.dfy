/** Trust tiers and the scope that admits them. */
module Trust {

  type Tier = int

  const STRANGER: Tier := 0
  const ENDORSED: Tier := 1

  datatype Scope = Conservative | Open {
    predicate Allows(t: Tier) {
      match this
      case Open => true
      case Conservative => t >= ENDORSED
    }
  }
}
