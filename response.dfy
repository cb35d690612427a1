/** How Torrent2LS reads the device's answer: the response text is an
    acceptance unless it contains the ordinal, case-sensitive substring
    "Fail" (String.Contains). */
module Response {

  const FailureMarker: string := "Fail"

  datatype Verdict = Accepted | Rejected

  /** `sub` occurs in `s` starting at index `i`. */
  predicate OccursAt(s: string, sub: string, i: int)
  {
    0 <= i && i + |sub| <= |s| && s[i..i + |sub|] == sub
  }

  /** String.Contains with ordinal comparison, as a scan from the left. */
  function Contains(s: string, sub: string): (r: bool)
    ensures r <==> exists i :: OccursAt(s, sub, i)
    decreases |s|
  {
    if |s| < |sub| then
      assert forall i :: !OccursAt(s, sub, i);
      false
    else if s[..|sub|] == sub then
      assert OccursAt(s, sub, 0);
      true
    else
      var r := Contains(s[1..], sub);
      assert forall i :: OccursAt(s[1..], sub, i) <==> OccursAt(s, sub, i + 1) by {
        forall i ensures OccursAt(s[1..], sub, i) <==> OccursAt(s, sub, i + 1) {
          if 0 <= i && i + |sub| <= |s| - 1 {
            assert s[1..][i..i + |sub|] == s[i + 1..i + 1 + |sub|];
          }
        }
      }
      assert !OccursAt(s, sub, 0);
      assert forall i :: OccursAt(s, sub, i) ==> i == 0 || OccursAt(s[1..], sub, i - 1);
      r
  }

  /** The verdict on a response body. */
  function Classify(response: string): (v: Verdict)
    ensures v == Rejected <==> exists i :: OccursAt(response, FailureMarker, i)
  {
    if !Contains(response, FailureMarker) then Accepted else Rejected
  }

  /** The marker is matched case-sensitively and anywhere in the text. */
  lemma ClassifyExamples()
    ensures Classify("") == Accepted
    ensures Classify("OK") == Accepted
    ensures Classify("fail") == Accepted
    ensures Classify("FAIL") == Accepted
    ensures Classify("Fail") == Rejected
    ensures Classify("Upload Failed") == Rejected
  {
    assert OccursAt("Fail", FailureMarker, 0);
    assert OccursAt("Upload Failed", FailureMarker, 7);
    assert "fail"[0..4][0] != FailureMarker[0];
    assert "FAIL"[0..4][1] != FailureMarker[1];
  }

  /** Adding text around a rejected response keeps it rejected. */
  lemma {:induction false} RejectionIsStable(pre: string, response: string, post: string)
    requires Classify(response) == Rejected
    ensures Classify(pre + response + post) == Rejected
  {
    var i :| OccursAt(response, FailureMarker, i);
    var s := pre + response + post;
    assert s[|pre| + i..|pre| + i + 4] == response[i..i + 4];
    assert OccursAt(s, FailureMarker, |pre| + i);
  }
}
