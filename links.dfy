/** Routing of an incoming text message (`process_message`, main.py): invite
    links go to join handling, other `t.me` links are parsed into a source and
    an index range. */
module Links {
  import opened Wrappers
  import opened Text
  import Peers

  const LinkPrefix := "https://t.me/"
  const InvitePrefix := "https://t.me/+"
  const JoinChatPrefix := "https://t.me/joinchat/"
  const PrivateChannelPrefix := "https://t.me/c/"
  const PrivateBotPrefix := "https://t.me/b/"
  const SingleMarker := "?single"

  /** What `process_message` does with a text. `Batch` keeps the
      `/`-separated pieces of the text and the parsed index range. */
  datatype Request =
    | JoinChat
    | Batch(datas: seq<string>, fromId: int, toId: int)
    | NotALink

  /** `int()` raised on an index of the link: the exception leaves
      `process_message` before any batch state exists. */
  datatype LinkError = MalformedIndex

  /** Where the items of a batch are fetched from. */
  datatype Source =
    | PrivateChannel(chatId: int)
    | PrivateBot(username: string)
    | Public(username: string)

  /** The index range named by the last path segment: every `?single` is
      removed, the rest is split on `-`, the first piece is `fromID` and the
      second, when present, `toID` (otherwise `toID` is `fromID`). */
  function RangeOf(last: string): (r: Option<(int, int)>)
    ensures r.Some? ==>
      var temp := Split(ReplaceAll(last, SingleMarker, ""), '-');
      ParseInt(Strip(temp[0])) == Some(r.value.0)
      && (|temp| == 1 ==> r.value.1 == r.value.0)
      && (|temp| > 1 ==> ParseInt(Strip(temp[1])) == Some(r.value.1))
    ensures r.None? ==>
      var temp := Split(ReplaceAll(last, SingleMarker, ""), '-');
      ParseInt(Strip(temp[0])).None? || (|temp| > 1 && ParseInt(Strip(temp[1])).None?)
  {
    var temp := Split(ReplaceAll(last, SingleMarker, ""), '-');
    match ParseInt(Strip(temp[0]))
    case None => None
    case Some(fromId) =>
      if |temp| > 1 then
        match ParseInt(Strip(temp[1]))
        case None => None
        case Some(toId) => Some((fromId, toId))
      else Some((fromId, fromId))
  }

  /** `datas[-1]`: the text after the last `/`. */
  function LastSegment(text: string): string {
    var datas := Split(text, '/');
    datas[|datas| - 1]
  }

  /** Invite links are recognised before any range parsing; other links are
      split on `/` and their last segment parsed as a range. */
  function ClassifyRequest(text: string): (r: Result<Request, LinkError>)
    ensures (Contains(text, InvitePrefix) || Contains(text, JoinChatPrefix)) ==> r == Ok(JoinChat)
    ensures r == Ok(NotALink) <==> !Contains(text, LinkPrefix)
    ensures r.Ok? && r.value.Batch? ==>
      && Contains(text, LinkPrefix)
      && !Contains(text, InvitePrefix) && !Contains(text, JoinChatPrefix)
      && r.value.datas == Split(text, '/')
      && RangeOf(LastSegment(text)) == Some((r.value.fromId, r.value.toId))
    ensures r.Err? ==> PlainLink(text) && RangeOf(LastSegment(text)).None?
  {
    if Contains(text, InvitePrefix) || Contains(text, JoinChatPrefix) then
      InviteContainsPrefix(text);
      Ok(JoinChat)
    else if Contains(text, LinkPrefix) then
      match RangeOf(LastSegment(text))
      case None => Err(MalformedIndex)
      case Some((fromId, toId)) => Ok(Batch(Split(text, '/'), fromId, toId))
    else Ok(NotALink)
  }

  lemma InviteContainsPrefix(text: string)
    requires Contains(text, InvitePrefix) || Contains(text, JoinChatPrefix)
    ensures Contains(text, LinkPrefix)
  {
    var p := if Contains(text, InvitePrefix) then InvitePrefix else JoinChatPrefix;
    var i := ContainsWitness(text, p);
    assert text[i..i + |LinkPrefix|] == p[..|LinkPrefix|] == LinkPrefix;
    ContainsAt(text, LinkPrefix, i);
  }

  /** The source of every index of the batch (main.py:357-365). `None` is the
      `IndexError` or `ValueError` that the loop counts as a failure. */
  function ResolveSource(text: string, datas: seq<string>): (r: Option<Source>)
    ensures r.Some? && r.value.PrivateChannel? ==>
      |datas| > 4 && ParseInt("-100" + datas[4]) == Some(r.value.chatId)
    ensures r.Some? && r.value.PrivateBot? ==> |datas| > 4 && r.value.username == datas[4]
    ensures r.Some? && r.value.Public? ==> |datas| > 3 && r.value.username == datas[3]
    ensures r.None? ==>
      if Contains(text, PrivateChannelPrefix) then |datas| <= 4 || ParseInt("-100" + datas[4]).None?
      else |datas| <= 4 || (!Contains(text, PrivateBotPrefix) && |datas| <= 3)
  {
    if Contains(text, PrivateChannelPrefix) then
      if |datas| > 4 then
        match ParseInt("-100" + datas[4])
        case Some(chatId) => Some(PrivateChannel(chatId))
        case None => None
      else None
    else if Contains(text, PrivateBotPrefix) then
      if |datas| > 4 then Some(PrivateBot(datas[4])) else None
    else if |datas| > 3 then Some(Public(datas[3]))
    else None
  }

  /** A text holding `https://t.me/` splits on `/` into at least four pieces,
      so the public-link route always finds its username. */
  lemma {:induction false} LinkHasUsernamePiece(text: string)
    requires Contains(text, LinkPrefix)
    ensures |Split(text, '/')| >= 4
  {
    var i := ContainsWitness(text, LinkPrefix);
    var pre := text[..i] + "https:";
    var post := text[i + |LinkPrefix|..];
    var c := "t.me" + ['/'] + post;
    var b := [] + ['/'] + c;
    assert text == text[..i] + text[i..i + |LinkPrefix|] + post;
    assert LinkPrefix == "https:" + ['/'] + ['/'] + "t.me" + ['/'];
    assert text == pre + ['/'] + b;
    SplitConcat(pre, '/', b);
    SplitConcat([], '/', c);
    SplitConcat("t.me", '/', post);
  }

  /** A batch from a public link resolves its source on every index. */
  lemma PublicLinkResolves(text: string)
    requires Contains(text, LinkPrefix)
    requires !Contains(text, PrivateChannelPrefix) && !Contains(text, PrivateBotPrefix)
    ensures |Split(text, '/')| >= 4
    ensures ResolveSource(text, Split(text, '/')) == Some(Public(Split(text, '/')[3]))
  {
    LinkHasUsernamePiece(text);
  }

  /** Trailing whitespace removal keeps a prefix that ends in a non-space. */
  lemma RStripKeepsPrefix(t: string, n: nat)
    requires 0 < n <= |t| && !IsSpace(t[n - 1])
    ensures |RStrip(t)| >= n && RStrip(t)[..n] == t[..n]
  {
    var r := RStrip(t);
    assert !IsSpace(t[n - 1]);
  }

  lemma ParseSignedNegative(r: string)
    requires r != [] && r[0] == '-' && ParseSigned(r).Some?
    ensures r[1..] != [] && AllDigits(r[1..])
    ensures ParseSigned(r).value == -(DigitsValue(r[1..]) as int)
  {
  }

  lemma StripChannelText(piece: string) returns (r: string)
    ensures Strip("-100" + piece) == r && |r| >= 4 && r[..4] == "-100"
  {
    var t := "-100" + piece;
    assert t[0] == '-' && !IsSpace(t[0]);
    assert LStrip(t) == t;
    r := RStrip(t);
    assert t[3] == '0';
    RStripKeepsPrefix(t, 4);
  }

  /** Whenever `int("-100" + piece)` succeeds, the id classifies as a channel. */
  lemma {:induction false} PrivateChannelIdIsChannel(piece: string, chatId: int)
    requires ParseInt("-100" + piece) == Some(chatId)
    ensures Peers.GetPeerType(chatId) == Peers.Channel
  {
    var r := StripChannelText(piece);
    var ds := r[1..];
    assert ds != [] && AllDigits(ds) && chatId == -(DigitsValue(ds) as int) by {
      assert ParseSigned(r) == Some(chatId);
      ParseSignedNegative(r);
    }
    assert ds[0] == '1' by {
      assert r[..4] == "-100";
    }
    assert IntToString(chatId) == r by {
      DigitsValuePositive(ds);
      NatOfDigits(ds);
      assert "-" + ds == r;
    }
    assert StartsWith(IntToString(chatId), "-100");
  }

  /** A source resolved from a private-channel link is a channel id. */
  lemma ResolvedChannelIsChannel(text: string, datas: seq<string>)
    requires ResolveSource(text, datas).Some? && ResolveSource(text, datas).value.PrivateChannel?
    ensures Peers.GetPeerType(ResolveSource(text, datas).value.chatId) == Peers.Channel
  {
    PrivateChannelIdIsChannel(datas[4], ResolveSource(text, datas).value.chatId);
  }

  // ---------------------------------------------------------------------------
  // Range parsing on well-formed segments

  lemma NumberParses(a: nat)
    ensures ParseInt(Strip(NatToString(a))) == Some(a)
  {
    var s := NatToString(a);
    assert IsDigit(s[0]) && IsDigit(s[|s| - 1]);
    StripNoSpaceEnds(s);
    ParseIntToString(a);
  }

  lemma NoMarkerInDigits(s: string)
    requires forall k :: 0 <= k < |s| ==> s[k] != '?'
    ensures ReplaceAll(s, SingleMarker, "") == s
  {
    NotContainsWithoutFirstChar(s, SingleMarker);
    ReplaceAbsent(s, SingleMarker, "");
  }

  lemma DigitsHaveNoDash(s: string)
    requires AllDigits(s)
    ensures '-' !in s
  {
    forall k | 0 <= k < |s| ensures s[k] != '-' {
      assert IsDigit(s[k]);
    }
  }

  /** `<a>-<b>` names the range from `a` to `b`. */
  lemma {:induction false} RangeSegmentParses(a: nat, b: nat)
    ensures RangeOf(NatToString(a) + "-" + NatToString(b)) == Some((a, b))
  {
    RangeSegmentPieces(NatToString(a), NatToString(b));
    NumberParses(a);
    NumberParses(b);
  }

  /** With no marker to remove, `<a>-<b>` splits into its two numbers. */
  lemma RangeSegmentPieces(sa: string, sb: string)
    requires AllDigits(sa) && AllDigits(sb)
    ensures Split(ReplaceAll(sa + "-" + sb, SingleMarker, ""), '-') == [sa, sb]
  {
    var seg := sa + "-" + sb;
    assert forall k :: 0 <= k < |seg| ==> seg[k] != '?' by {
      forall k | 0 <= k < |seg| ensures seg[k] != '?' {
        if k < |sa| { assert seg[k] == sa[k] && IsDigit(sa[k]); }
        else if k > |sa| { assert seg[k] == sb[k - |sa| - 1] && IsDigit(sb[k - |sa| - 1]); }
      }
    }
    NoMarkerInDigits(seg);
    DigitsHaveNoDash(sa);
    DigitsHaveNoDash(sb);
    assert seg == sa + ['-'] + sb;
    SplitAtSep(sa, '-', sb);
    SplitWithoutSep(sb, '-');
  }

  /** `<a>` alone names the one-item range `a..a`. */
  lemma {:induction false} SingleSegmentParses(a: nat)
    ensures RangeOf(NatToString(a)) == Some((a, a))
  {
    var sa := NatToString(a);
    assert forall k :: 0 <= k < |sa| ==> sa[k] != '?' by {
      forall k | 0 <= k < |sa| ensures sa[k] != '?' { assert IsDigit(sa[k]); }
    }
    NoMarkerInDigits(sa);
    DigitsHaveNoDash(sa);
    SplitWithoutSep(sa, '-');
    NumberParses(a);
  }

  /** `<a>?single` also names `a..a`: the marker is removed before splitting. */
  lemma {:induction false} SingleMarkerSegmentParses(a: nat)
    ensures RangeOf(NatToString(a) + SingleMarker) == Some((a, a))
  {
    var sa := NatToString(a);
    assert forall k :: 0 <= k < |sa| ==> sa[k] != SingleMarker[0] by {
      forall k | 0 <= k < |sa| ensures sa[k] != SingleMarker[0] { assert IsDigit(sa[k]); }
    }
    NotContainsWithoutFirstChar(sa, SingleMarker);
    ReplacePlaceholderSubstituted(sa, SingleMarker, "", []);
    assert sa + SingleMarker + [] == sa + SingleMarker;
    assert ReplaceAll(sa + SingleMarker, SingleMarker, "") == sa;
    DigitsHaveNoDash(sa);
    SplitWithoutSep(sa, '-');
    NumberParses(a);
  }

  /** The range is read from the segment after the last `/`. */
  lemma LastSegmentIsRange(head: string, segment: string)
    requires '/' !in segment
    ensures var datas := Split(head + "/" + segment, '/'); datas[|datas| - 1] == segment
  {
    assert head + "/" + segment == head + ['/'] + segment;
    LastPieceAfterSep(head, '/', segment);
  }

  /** A `t.me` link that is not an invite link. */
  predicate PlainLink(text: string) {
    Contains(text, LinkPrefix) && !Contains(text, InvitePrefix) && !Contains(text, JoinChatPrefix)
  }

  lemma DigitsHaveNoSlash(s: string)
    requires AllDigits(s)
    ensures '/' !in s
  {
    forall k | 0 <= k < |s| ensures s[k] != '/' {
      assert IsDigit(s[k]);
    }
  }

  /** A plain link is a batch over the range its last segment names. */
  lemma ClassifiedByLastSegment(text: string, a: int, b: int)
    requires PlainLink(text)
    requires RangeOf(LastSegment(text)) == Some((a, b))
    ensures ClassifyRequest(text) == Ok(Batch(Split(text, '/'), a, b))
  {
  }

  /** The segment after the last `/` of `<head>/<segment>`. */
  lemma LastSegmentOf(head: string, segment: string)
    requires '/' !in segment
    ensures LastSegment(head + "/" + segment) == segment
  {
    LastSegmentIsRange(head, segment);
  }

  lemma RangeTextNoSlash(a: nat, b: nat)
    ensures '/' !in NatToString(a) + "-" + NatToString(b)
  {
    DigitsHaveNoSlash(NatToString(a));
    DigitsHaveNoSlash(NatToString(b));
  }

  /** A link ending in `/<a>-<b>` is a batch over `a..b`. */
  lemma {:induction false} RangeLinkClassified(head: string, a: nat, b: nat)
    requires PlainLink(head + "/" + (NatToString(a) + "-" + NatToString(b)))
    ensures var text := head + "/" + (NatToString(a) + "-" + NatToString(b));
      ClassifyRequest(text) == Ok(Batch(Split(text, '/'), a, b))
  {
    var seg := NatToString(a) + "-" + NatToString(b);
    RangeTextNoSlash(a, b);
    LastSegmentOf(head, seg);
    RangeSegmentParses(a, b);
    ClassifiedByLastSegment(head + "/" + seg, a, b);
  }

  /** A link ending in `/<a>` is a batch over the one item `a`. */
  lemma {:induction false} SingleLinkClassified(head: string, a: nat)
    requires PlainLink(head + "/" + NatToString(a))
    ensures var text := head + "/" + NatToString(a);
      ClassifyRequest(text) == Ok(Batch(Split(text, '/'), a, a))
  {
    DigitsHaveNoSlash(NatToString(a));
    LastSegmentOf(head, NatToString(a));
    SingleSegmentParses(a);
    ClassifiedByLastSegment(head + "/" + NatToString(a), a, a);
  }
}
