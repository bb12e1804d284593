/** The participant identity convention of the agent's entry point: the
    identity string is `userId_interviewId`, split at the first `_` only and
    unpacked into exactly two names. */
module Identity {
  import opened Results
  import opened Strings

  const Separator: char := '_'

  /** The two names an identity carries. */
  datatype Participant = Participant(userId: string, interviewId: string)

  /** Splits the identity with `split("_", 1)` and unpacks the pieces into
      two names; a one-piece split cannot be unpacked and is rejected. */
  function ParseIdentity(identity: string): (r: Result<Participant>)
    ensures r.Failure? <==> Separator !in identity
    ensures r.Failure? ==> r.error == MalformedIdentity(identity)
    ensures r.Ok? ==> Separator !in r.value.userId
    ensures r.Ok? ==> r.value.userId + [Separator] + r.value.interviewId == identity
  {
    var parts := SplitOnce(identity, Separator);
    if |parts| == 2 then Ok(Participant(parts[0], parts[1]))
    else Failure(MalformedIdentity(identity))
  }

  /** The identity a participant with these names is given. */
  function FormatIdentity(p: Participant): string
  {
    p.userId + [Separator] + p.interviewId
  }

  /** Formatting then parsing gives the participant back exactly when the user
      id has no `_`; otherwise the split happens inside the user id. */
  lemma ParseFormat(p: Participant)
    ensures ParseIdentity(FormatIdentity(p)) == Ok(p) <==> Separator !in p.userId
  {
    if Separator !in p.userId {
      FindFirstAfterPrefix(p.userId, Separator, p.interviewId);
      var s := FormatIdentity(p);
      assert s[..|p.userId|] == p.userId;
      assert s[|p.userId| + 1..] == p.interviewId;
    }
  }

  /** The identity `u1_i42` names user `u1` and interview `i42`. */
  lemma ParsePlainExample()
    ensures ParseIdentity("u1_i42") == Ok(Participant("u1", "i42"))
  {
    var p := Participant("u1", "i42");
    assert Separator !in p.userId;
    ParseFormat(p);
    assert FormatIdentity(p) == "u1_i42";
  }

  /** Only the first `_` separates: later ones stay in the interview id. */
  lemma ParseFirstSeparatorExample()
    ensures ParseIdentity("u1_i_42") == Ok(Participant("u1", "i_42"))
  {
    var p := Participant("u1", "i_42");
    assert Separator !in p.userId;
    ParseFormat(p);
    assert FormatIdentity(p) == "u1_i_42";
  }

  /** An identity without `_` cannot be unpacked into two names. */
  lemma ParseNoSeparatorExample()
    ensures ParseIdentity("u1i42") == Failure(MalformedIdentity("u1i42"))
  {
    var s := "u1i42";
    assert forall k :: 0 <= k < |s| ==> s[k] != Separator;
  }
}
