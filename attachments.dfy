/** EMLAttachmentAnalyzer of dashboard2.py: deciding whether a message has
    attachments and listing them. The two decisions test the
    Content-Disposition header differently: the yes/no check wants it to
    start with "attachment" exactly, the listing only wants "attachment"
    somewhere in its lower-cased value. */
module Attachments {
  import opened Wrappers
  import opened Text
  import opened Mime
  import opened Sequences

  /** One entry of get_attachment_info's result. */
  datatype AttachmentInfo = AttachmentInfo(filename: string, contentType: string, size: nat)

  /** The test check_message_for_attachments applies to each part: a
      disposition starting with "attachment" in exactly that case, or a
      filename. Any part it flags, the listing flags too. */
  function FlaggedByCheck(p: Part): (b: bool)
    ensures b ==> FlaggedByListing(p)
  {
    if Truthy(p.disposition) && StartsWith(p.disposition.value, "attachment") then
      AttachmentPrefixIsListed(p.disposition.value);
      true
    else
      Truthy(p.filename)
  }

  /** The test get_attachment_info applies to each part: "attachment"
      somewhere in the lower-cased disposition, or a filename. */
  function FlaggedByListing(p: Part): (b: bool)
    ensures b <==> Truthy(p.filename)
                   || (Truthy(p.disposition) && exists i :: OccursAt(Lower(p.disposition.value), "attachment", i))
  {
    var inDisposition := Truthy(p.disposition) && Contains(Lower(p.disposition.value), "attachment");
    assert Truthy(p.disposition) ==>
      (inDisposition <==> exists i :: OccursAt(Lower(p.disposition.value), "attachment", i)) by {
      if Truthy(p.disposition) {
        ContainsIff(Lower(p.disposition.value), "attachment");
      }
    }
    inDisposition || Truthy(p.filename)
  }

  /** A disposition starting with "attachment" contains "attachment" once
      lower-cased. */
  lemma {:induction false} AttachmentPrefixIsListed(d: string)
    requires StartsWith(d, "attachment")
    ensures Contains(Lower(d), "attachment")
  {
    assert OccursAt(d, "attachment", 0);
    OccursAtLower(d, "attachment", 0);
    assert Lower("attachment") == "attachment";
    ContainsIff(Lower(d), "attachment");
  }

  /** The converse fails: an upper-case disposition with no filename is
      listed but not detected. */
  lemma ListingFlagsMoreThanCheck()
    ensures var p := Part("application/pdf", "", Some("ATTACHMENT"), None, Some(10));
            FlaggedByListing(p) && !FlaggedByCheck(p)
  {
    var d := "ATTACHMENT";
    assert Lower(d) == "attachment";
    assert StartsWith(Lower(d), "attachment");
    assert d[..10] != "attachment" by {
      assert d[0] != "attachment"[0];
    }
  }

  /** check_message_for_attachments: False for a single-part message;
      otherwise True exactly when some part of the walk is flagged. */
  method CheckMessageForAttachments(msg: Message) returns (found: bool)
    ensures found <==> msg.isMultipart && exists i :: 0 <= i < |msg.walk| && FlaggedByCheck(msg.walk[i])
  {
    if msg.isMultipart {
      var i := 0;
      while i < |msg.walk|
        invariant 0 <= i <= |msg.walk|
        invariant forall j :: 0 <= j < i ==> !FlaggedByCheck(msg.walk[j])
      {
        var part := msg.walk[i];
        if part.disposition.Some? && part.disposition.value != ""
           && StartsWith(part.disposition.value, "attachment") {
          return true;
        }
        if part.filename.Some? && part.filename.value != "" {
          return true;
        }
        i := i + 1;
      }
    }
    return false;
  }

  /** has_attachments: the same answer (the exception fallback is not
      modelled, the check raises none here). */
  method HasAttachments(msg: Message) returns (found: bool)
    ensures found <==> msg.isMultipart && exists i :: 0 <= i < |msg.walk| && FlaggedByCheck(msg.walk[i])
  {
    found := CheckMessageForAttachments(msg);
  }

  /** The parts the listing keeps, in walk order: never more than the
      walk has, and each of them flagged. */
  function ListedParts(walk: seq<Part>): (listed: seq<Part>)
    ensures |listed| <= |walk|
    ensures forall k :: 0 <= k < |listed| ==> FlaggedByListing(listed[k])
  {
    if walk == [] then []
    else ListedParts(walk[..|walk| - 1])
         + (if FlaggedByListing(walk[|walk| - 1]) then [walk[|walk| - 1]] else [])
  }

  /** A part is listed exactly when it is in the walk and flagged. */
  lemma {:induction false} ListedPartsMembership(walk: seq<Part>, p: Part)
    ensures p in ListedParts(walk) <==> p in walk && FlaggedByListing(p)
  {
    if walk != [] {
      var init := walk[..|walk| - 1];
      ListedPartsMembership(init, p);
      assert walk == init + [walk[|walk| - 1]];
    }
  }

  /** Walking one more part extends the listing by that part, if flagged. */
  lemma ListedPartsStep(walk: seq<Part>, i: nat)
    requires i < |walk|
    ensures ListedParts(walk[..i + 1])
         == ListedParts(walk[..i]) + (if FlaggedByListing(walk[i]) then [walk[i]] else [])
  {
    assert walk[..i + 1][..i] == walk[..i];
  }

  /** The listing keeps walk order: it is a subsequence of the walk. */
  lemma {:induction false} ListedPartsInOrder(walk: seq<Part>)
    ensures IsSubsequence(ListedParts(walk), walk)
  {
    if walk != [] {
      var init, last := walk[..|walk| - 1], walk[|walk| - 1];
      ListedPartsInOrder(init);
      assert walk == init + [last];
      if FlaggedByListing(last) {
        var l := ListedParts(init) + [last];
        assert l[..|l| - 1] == ListedParts(init);
      } else {
        assert ListedParts(walk) == ListedParts(init);
        SubsequenceDropLast(ListedParts(init), init, last);
      }
    }
  }

  /** A flagged part present in the walk makes the listing non-empty. */
  lemma ListedPartsNonEmpty(walk: seq<Part>, i: nat)
    requires i < |walk| && FlaggedByListing(walk[i])
    ensures |ListedParts(walk)| > 0
  {
    ListedPartsMembership(walk, walk[i]);
  }

  /** The entry for the `ordinal`-th listed part: its filename, or
      unnamed_<ordinal> when it has none; its content type, or "unknown"
      when that is empty; its payload length, or 0 without a payload. */
  function Describe(p: Part, ordinal: nat): (info: AttachmentInfo)
    ensures info.filename != "" && info.contentType != ""
    ensures Truthy(p.filename) ==> info.filename == p.filename.value
    ensures !Truthy(p.filename) ==>
      StartsWith(info.filename, "unnamed_") && AllDigits(info.filename[8..])
      && DigitsValue(info.filename[8..]) == ordinal
  {
    NatToStringRoundTrip(ordinal);
    assert ("unnamed_" + NatToString(ordinal))[8..] == NatToString(ordinal);
    AttachmentInfo(
      if Truthy(p.filename) then p.filename.value else "unnamed_" + NatToString(ordinal),
      if p.contentType != "" then p.contentType else "unknown",
      p.payloadSize.GetOr(0))
  }

  /** Two unnamed attachments at different positions get different names. */
  lemma UnnamedNamesDiffer(p: Part, q: Part, m: nat, n: nat)
    requires !Truthy(p.filename) && !Truthy(q.filename) && m != n
    ensures Describe(p, m).filename != Describe(q, n).filename
  {
    NatToStringInjective(m, n);
    var a, b := NatToString(m), NatToString(n);
    assert ("unnamed_" + a)[8..] == a;
    assert ("unnamed_" + b)[8..] == b;
  }

  /** `entries` describes `listed` one for one, the k-th (from 1) with
      ordinal k. */
  predicate Described(entries: seq<AttachmentInfo>, listed: seq<Part>) {
    |entries| == |listed| && forall k :: 0 <= k < |entries| ==> entries[k] == Describe(listed[k], k + 1)
  }

  /** Walking one more part keeps the entries describing the listing. */
  lemma DescribedStep(walk: seq<Part>, i: nat, entries: seq<AttachmentInfo>)
    requires i < |walk| && Described(entries, ListedParts(walk[..i]))
    ensures FlaggedByListing(walk[i]) ==>
      Described(entries + [Describe(walk[i], |entries| + 1)], ListedParts(walk[..i + 1]))
    ensures !FlaggedByListing(walk[i]) ==> Described(entries, ListedParts(walk[..i + 1]))
  {
    ListedPartsStep(walk, i);
    if FlaggedByListing(walk[i]) {
      DescribedAppend(entries, ListedParts(walk[..i]), walk[i]);
    }
  }

  /** Describing one more part, with the next ordinal, keeps the match. */
  lemma DescribedAppend(entries: seq<AttachmentInfo>, listed: seq<Part>, p: Part)
    requires Described(entries, listed)
    ensures Described(entries + [Describe(p, |entries| + 1)], listed + [p])
  {
    var longer := entries + [Describe(p, |entries| + 1)];
    forall k | 0 <= k < |longer|
      ensures longer[k] == Describe((listed + [p])[k], k + 1)
    {
      if k < |entries| {
        assert longer[k] == entries[k];
        assert (listed + [p])[k] == listed[k];
      }
    }
  }

  /** get_attachment_info: nothing for a single-part message; otherwise one
      entry per listed part, in walk order, the k-th (from 1) described
      with ordinal k. */
  method GetAttachmentInfo(msg: Message) returns (attachments: seq<AttachmentInfo>)
    ensures !msg.isMultipart ==> attachments == []
    ensures msg.isMultipart ==>
      |attachments| == |ListedParts(msg.walk)|
      && forall k :: 0 <= k < |attachments| ==> attachments[k] == Describe(ListedParts(msg.walk)[k], k + 1)
  {
    attachments := [];
    if msg.isMultipart {
      var i := 0;
      while i < |msg.walk|
        invariant 0 <= i <= |msg.walk|
        invariant Described(attachments, ListedParts(msg.walk[..i]))
      {
        var part := msg.walk[i];
        var isAttachment := false;
        if part.disposition.Some? && part.disposition.value != ""
           && Contains(Lower(part.disposition.value), "attachment") {
          isAttachment := true;
        } else if part.filename.Some? && part.filename.value != "" {
          isAttachment := true;
        }
        assert isAttachment == FlaggedByListing(part);
        DescribedStep(msg.walk, i, attachments);
        if isAttachment {
          var filename := if part.filename.Some? && part.filename.value != "" then part.filename.value
                          else "unnamed_" + NatToString(|attachments| + 1);
          var contentType := if part.contentType != "" then part.contentType else "unknown";
          var size := if part.payloadSize.Some? then part.payloadSize.value else 0;
          assert AttachmentInfo(filename, contentType, size) == Describe(part, |attachments| + 1);
          attachments := attachments + [AttachmentInfo(filename, contentType, size)];
        }
        i := i + 1;
      }
      assert msg.walk[..i] == msg.walk;
    }
  }

  /** The listing of a message the check flags is never empty. */
  lemma CheckedMessageIsListed(msg: Message)
    requires msg.isMultipart && exists i :: 0 <= i < |msg.walk| && FlaggedByCheck(msg.walk[i])
    ensures |ListedParts(msg.walk)| > 0
  {
    var i :| 0 <= i < |msg.walk| && FlaggedByCheck(msg.walk[i]);
    ListedPartsNonEmpty(msg.walk, i);
  }

  /** The dashboard lists attachments only for a message has_attachments
      accepts: such a message always has at least one entry, and the
      attachment count is the length of the list. */
  method DashboardAttachments(msg: Message) returns (hasAttachments: bool, attachments: seq<AttachmentInfo>, attachmentCount: nat)
    ensures hasAttachments <==> msg.isMultipart && exists i :: 0 <= i < |msg.walk| && FlaggedByCheck(msg.walk[i])
    ensures hasAttachments ==> |attachments| > 0
    ensures hasAttachments ==>
      |attachments| == |ListedParts(msg.walk)|
      && forall k :: 0 <= k < |attachments| ==> attachments[k] == Describe(ListedParts(msg.walk)[k], k + 1)
    ensures !hasAttachments ==> attachments == []
    ensures attachmentCount == |attachments|
  {
    hasAttachments := HasAttachments(msg);
    if hasAttachments {
      attachments := GetAttachmentInfo(msg);
      CheckedMessageIsListed(msg);
    } else {
      attachments := [];
    }
    attachmentCount := |attachments|;
  }
}
