// The token list of the PKCS#11 library, and looking through it.
module Tokens {
  import opened Wrappers

  /** One slot as the token list shows it; a token whose information cannot be read has None. */
  datatype TokenSlot = TokenSlot(number: nat, info: Option<string>)

  /** The first slot whose token is readable and has a label that fits. */
  function FirstSlot(tokens: seq<TokenSlot>, fits: string -> bool): Option<nat> {
    if tokens == [] then None
    else if tokens[0].info.Some? && fits(tokens[0].info.value) then Some(tokens[0].number)
    else FirstSlot(tokens[1..], fits)
  }

  /** Slot `i` is the first that fits. */
  ghost predicate FirstFit(tokens: seq<TokenSlot>, fits: string -> bool, i: int) {
    && 0 <= i < |tokens| && tokens[i].info.Some? && fits(tokens[i].info.value)
    && (forall j :: 0 <= j < i ==> tokens[j].info.None? || !fits(tokens[j].info.value))
  }

  /** The search stops at the first fitting slot, and finds nothing exactly if none fits. */
  lemma {:induction false} FirstSlotExactly(tokens: seq<TokenSlot>, fits: string -> bool)
    ensures forall i :: FirstFit(tokens, fits, i) ==> FirstSlot(tokens, fits) == Some(tokens[i].number)
    ensures FirstSlot(tokens, fits).None? <==> forall i :: 0 <= i < |tokens| ==> tokens[i].info.None? || !fits(tokens[i].info.value)
    decreases |tokens|
  {
    if tokens != [] && !(tokens[0].info.Some? && fits(tokens[0].info.value)) {
      FirstSlotExactly(tokens[1..], fits);
      forall i | FirstFit(tokens, fits, i) ensures FirstFit(tokens[1..], fits, i - 1) {
      }
      assert forall i :: 1 <= i < |tokens| ==> tokens[1..][i - 1] == tokens[i];
    }
  }
}
