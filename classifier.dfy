/**
 * The reply parsing of `is_interesting_title`. The remote language model is
 * outside the model: its answer arrives as a `ClassifierReply`, either the
 * streamed text fragments or a failure (any exception raised by the call).
 */
module Classifier {
  import opened Text

  datatype ClassifierReply = Streamed(fragments: seq<string>) | Failed

  /** "yes" neither starts nor ends with whitespace, so stripping cannot cut
      into one of its occurrences. */
  lemma YesHasNoSpaceEnds()
    ensures "yes" != [] && !IsSpace("yes"[0]) && !IsSpace("yes"[|"yes"| - 1])
  {
  }

  /** Stripped and lowercased text has no whitespace at either end. */
  lemma NormalizedEnds(s: string)
    ensures var r := Lower(Strip(s)); r != [] ==> !IsSpace(r[0]) && !IsSpace(r[|r| - 1])
  {
    LowerStripCommute(s);
    StripEnds(Lower(s));
  }

  /** Stripping before lowercasing neither adds nor removes a "yes". */
  lemma NormalizedKeepsYes(s: string)
    ensures Contains(Lower(Strip(s)), "yes") <==> Contains(Lower(s), "yes")
  {
    LowerStripCommute(s);
    YesHasNoSpaceEnds();
    StripKeepsContains(Lower(s), "yes");
  }

  /** `' '.join(output).strip().lower()`: the reply with no whitespace at either
      end, and containing "yes" exactly when the lowercased joined fragments do. */
  function NormalizeReply(fragments: seq<string>): (r: string)
    ensures r != [] ==> !IsSpace(r[0]) && !IsSpace(r[|r| - 1])
    ensures Contains(r, "yes") <==> Contains(Lower(JoinWithSpace(fragments)), "yes")
  {
    var joined := JoinWithSpace(fragments);
    NormalizedEnds(joined);
    NormalizedKeepsYes(joined);
    Lower(Strip(joined))
  }

  /** The verdict: `'yes' in response`, and `False` when the call failed. The
      stripping plays no part: the verdict is whether "yes" occurs anywhere in the
      lowercased, space-joined fragments. */
  function IsInterestingTitle(reply: ClassifierReply): (ok: bool)
    ensures reply.Failed? ==> !ok
    ensures reply.Streamed? ==> (ok <==> Contains(Lower(JoinWithSpace(reply.fragments)), "yes"))
  {
    match reply
    case Failed => false
    case Streamed(fragments) => Contains(NormalizeReply(fragments), "yes")
  }

  /** A fragment that contains "yes" in any letter case makes the verdict true,
      whatever the other fragments say. */
  lemma AnyYesFragmentAccepts(fragments: seq<string>, k: nat)
    requires k < |fragments| && Contains(Lower(fragments[k]), "yes")
    ensures IsInterestingTitle(Streamed(fragments))
  {
    var joined := JoinWithSpace(fragments);
    JoinContainsPart(fragments, k);
    LowerKeepsOccurrence(joined, fragments[k]);
    ContainsTransitive(Lower(joined), Lower(fragments[k]), "yes");
  }

  /** A reply that only embeds "yes" in another word, or that contradicts itself,
      still counts as yes: "eyes" and "No, yes" are both accepted. */
  lemma SubstringVerdictExamples()
    ensures IsInterestingTitle(Streamed(["eyes"]))
    ensures IsInterestingTitle(Streamed(["No,", "yes"]))
  {
    assert OccursAt(Lower("eyes"), "yes", 1);
    assert Lower("yes") == "yes";
    assert OccursAt(Lower("yes"), "yes", 0);
    AnyYesFragmentAccepts(["No,", "yes"], 1);
  }

  /** An empty reply, a plain "No" and a failed call are all rejections. */
  lemma RejectionExamples()
    ensures !IsInterestingTitle(Streamed([]))
    ensures !IsInterestingTitle(Streamed([" No "]))
    ensures !IsInterestingTitle(Failed)
  {
  }
}
