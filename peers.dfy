/** Classification of a numeric peer id by the prefix of its decimal form,
    as the patched `get_peer_type` of the messaging library does. */
module Peers {
  import opened Wrappers
  import opened Text

  datatype PeerType = User | Channel | Chat

  /** `user` without a leading minus sign, `channel` for the `-100` prefix,
      `chat` for every other negative id. */
  function GetPeerType(peerId: int): (r: PeerType)
    ensures r == User <==> peerId >= 0
    ensures r == Channel <==> StartsWith(IntToString(peerId), "-100")
    ensures r == Chat <==> peerId < 0 && !StartsWith(IntToString(peerId), "-100")
  {
    var s := IntToString(peerId);
    if !StartsWith(s, "-") then User
    else if StartsWith(s, "-100") then Channel
    else Chat
  }

  /** The id built from a private-channel link, `int("-100" + d)` for a
      non-empty digit string `d`, always parses and always classifies as a
      channel. */
  lemma {:induction false} PrivateChatIdIsChannel(d: string)
    requires d != [] && AllDigits(d)
    ensures ParseInt("-100" + d).Some?
    ensures GetPeerType(ParseInt("-100" + d).value) == Channel
  {
    var ds := "100" + d;
    PrefixedDigits(d);
    assert "-100" + d == "-" + ds;
    NegativeDigits(ds);
    var v := -(DigitsValue(ds) as int);
    assert StartsWith(IntToString(v), "-100") by {
      assert IntToString(v) == "-" + ds;
      assert ("-" + ds)[..4] == "-100";
    }
  }

  lemma PrefixedDigits(d: string)
    requires AllDigits(d)
    ensures AllDigits("100" + d)
  {
    var ds := "100" + d;
    forall k | 0 <= k < |ds| ensures IsDigit(ds[k]) {
      if k >= 3 { assert ds[k] == d[k - 3]; }
    }
  }
}
