/** The IP block-list page of src/components/IPBlocking.tsx: the dotted-quad
    validator, the search filter, and the block/unblock/delete handlers,
    which work on the page's own copy of the list (not on the store). */
module IPBlocking {
  import opened Text
  import opened Seqs
  import opened Types
  import Store

  // ---------------------------------------------------------------------
  // validateIP

  /** One octet of `validateIP`'s pattern: the alternatives
      `25[0-5]`, `2[0-4][0-9]` and `[01]?[0-9][0-9]?`, as whole strings. */
  predicate OctetAlternatives(w: string) {
    || (|w| == 3 && w[0] == '2' && w[1] == '5' && '0' <= w[2] <= '5')
    || (|w| == 3 && w[0] == '2' && '0' <= w[1] <= '4' && IsDigit(w[2]))
    || (1 <= |w| <= 3 && AllDigits(w) && (|w| == 3 ==> w[0] == '0' || w[0] == '1'))
  }

  /** The anchored pattern `^(?:OCTET\.){3}OCTET$`: the fields between the
      dots. An octet holds no dot, so a match is exactly a split into four
      fields each matching the octet pattern. */
  predicate ValidateIP(s: string) {
    var f := Split(s, {'.'});
    |f| == 4 && forall i :: 0 <= i < 4 ==> OctetAlternatives(f[i])
  }

  lemma ThreeDigitValue(w: string)
    requires |w| == 3 && AllDigits(w)
    ensures DigitsValue(w) == 100 * DigitValue(w[0]) + 10 * DigitValue(w[1]) + DigitValue(w[2])
  {
    var two := w[..2];
    assert two[..1] == [w[0]] && two[1] == w[1];
    assert [w[0]][..0] == [];
    assert DigitsValue([w[0]]) == DigitValue(w[0]);
    assert DigitsValue(two) == 10 * DigitValue(w[0]) + DigitValue(w[1]);
    assert w[..|w| - 1] == two;
  }

  lemma TwoDigitValue(w: string)
    requires |w| == 2 && AllDigits(w)
    ensures DigitsValue(w) == 10 * DigitValue(w[0]) + DigitValue(w[1]) <= 99
  {
    assert w[..1] == [w[0]];
    assert [w[0]][..0] == [];
    assert DigitsValue([w[0]]) == DigitValue(w[0]);
  }

  lemma OneDigitValue(w: string)
    requires |w| == 1 && AllDigits(w)
    ensures DigitsValue(w) == DigitValue(w[0]) <= 9
  {
    assert w[..0] == [];
  }

  /** An octet is one to three ASCII digits whose value is at most 255;
      leading zeros are allowed. */
  lemma OctetIsSmallNumeral(w: string)
    ensures OctetAlternatives(w) <==> 1 <= |w| <= 3 && AllDigits(w) && DigitsValue(w) <= 255
  {
    if 1 <= |w| <= 3 && AllDigits(w) {
      if |w| == 3 {
        ThreeDigitValue(w);
        assert DigitChar(DigitValue(w[0])) == w[0];
        assert DigitChar(DigitValue(w[1])) == w[1];
        assert DigitChar(DigitValue(w[2])) == w[2];
      } else if |w| == 2 {
        TwoDigitValue(w);
      } else {
        OneDigitValue(w);
      }
    }
  }

  /** What `validateIP` accepts: four dot-separated fields, each one to three
      digits with value at most 255. */
  lemma ValidateIPFields(s: string)
    ensures ValidateIP(s) <==>
      var f := Split(s, {'.'});
      |f| == 4 && forall i :: 0 <= i < 4 ==> 1 <= |f[i]| <= 3 && AllDigits(f[i]) && DigitsValue(f[i]) <= 255
  {
    var f := Split(s, {'.'});
    forall i | 0 <= i < |f| {
      OctetIsSmallNumeral(f[i]);
    }
  }

  /** The pattern's language: s is accepted exactly when it is four octets
      joined with dots. */
  lemma ValidateIPIsJoin(o: seq<string>)
    requires |o| == 4 && forall i :: 0 <= i < 4 ==> OctetAlternatives(o[i])
    ensures ValidateIP(Join(o, "."))
  {
    forall i | 0 <= i < 4 ensures '.' !in o[i] {
      OctetIsSmallNumeral(o[i]);
    }
    SplitJoin(o, '.', "");
    assert ['.'] + "" == ".";
    var f := Split(Join(o, "."), {'.'});
    assert f == [o[0]] + seq(3, i requires 0 <= i < 3 => "" + o[i + 1]);
    forall i | 0 <= i < 4 ensures f[i] == o[i] {
      if i > 0 {
        assert f[i] == "" + o[i];
      }
    }
    assert f == o;
  }

  lemma ValidateIPOnlyJoins(s: string)
    requires ValidateIP(s)
    ensures |Split(s, {'.'})| == 4 && s == Join(Split(s, {'.'}), ".")
  {
    JoinSplit(s, '.');
  }

  /** RFC 3986, section 3.2.2: dec-octet, which has no leading zeros. */
  predicate DecOctet(w: string) {
    AllDigits(w) && 1 <= |w| <= 3 && (|w| > 1 ==> w[0] != '0') && (|w| == 3 ==> DigitsValue(w) <= 255)
  }

  /** Every dec-octet of RFC 3986 is accepted, and so are octets with leading
      zeros, which RFC 3986 excludes. */
  lemma MorePermissiveThanRfc3986()
    ensures forall w :: DecOctet(w) ==> OctetAlternatives(w)
    ensures OctetAlternatives("010") && !DecOctet("010")
    ensures OctetAlternatives("001") && !DecOctet("001")
  {
    forall w | DecOctet(w) ensures OctetAlternatives(w) {
      OctetIsSmallNumeral(w);
      if |w| == 2 {
        TwoDigitValue(w);
      } else if |w| == 1 {
        OneDigitValue(w);
      }
    }
  }

  // ---------------------------------------------------------------------
  // filteredIPs

  /** The search box matches the address as typed, or the reason without
      regard to case; the status box is 'all' or a status name. */
  function IPMatches(query: string, statusFilter: string): BlockedIP -> bool {
    (ip: BlockedIP) =>
      (Contains(ip.ipAddress, query) || Contains(ToLower(ip.reason), ToLower(query)))
      && (statusFilter == "all" || BlockStatusName(ip.status) == statusFilter)
  }

  function FilteredIPs(ips: seq<BlockedIP>, query: string, statusFilter: string): (r: seq<BlockedIP>)
    ensures |r| <= |ips|
    ensures forall i :: 0 <= i < |r| ==> r[i] in ips && IPMatches(query, statusFilter)(r[i])
  {
    Filter(ips, IPMatches(query, statusFilter))
  }

  /** The listing keeps the order of the list, shows only entries that match
      both boxes and every entry that does; with an empty query and 'all' it
      shows the whole list. */
  lemma FilteredIPsEffect(ips: seq<BlockedIP>, query: string, statusFilter: string)
    ensures IsSubsequence(FilteredIPs(ips, query, statusFilter), ips)
    ensures forall i :: 0 <= i < |ips| ==>
      (ips[i] in FilteredIPs(ips, query, statusFilter) <==>
        (Contains(ips[i].ipAddress, query) || Contains(ToLower(ips[i].reason), ToLower(query)))
        && (statusFilter == "all" || BlockStatusName(ips[i].status) == statusFilter))
    ensures query == "" && statusFilter == "all" ==> FilteredIPs(ips, query, statusFilter) == ips
  {
    var p := IPMatches(query, statusFilter);
    FilterIsSubsequence(ips, p);
    forall i | 0 <= i < |ips| && ips[i] in FilteredIPs(ips, query, statusFilter) ensures p(ips[i]) {
      var r := FilteredIPs(ips, query, statusFilter);
      var k :| 0 <= k < |r| && r[k] == ips[i];
    }
    if query == "" && statusFilter == "all" {
      forall i | 0 <= i < |ips| ensures p(ips[i]) {
        ContainsEmpty(ips[i].ipAddress);
      }
      FilterAll(ips, p);
    }
  }

  // ---------------------------------------------------------------------
  // The handlers

  predicate HasActive(ips: seq<BlockedIP>, address: string) {
    exists i :: 0 <= i < |ips| && ips[i].ipAddress == address && ips[i].status == BlockActive
  }

  /** The toast `handleBlockIP` shows, with the new entry on success. */
  datatype BlockOutcome = MissingInformation | InvalidAddress | AlreadyBlocked | Blocked(record: BlockedIP)

  /** The guards of `handleBlockIP`, in order, then the entry it builds: its
      id is the list's length plus one. */
  function BlockDecision(ips: seq<BlockedIP>, address: string, reason: string, blockedBy: string, today: string): BlockOutcome {
    if address == "" || reason == "" then MissingInformation
    else if !ValidateIP(address) then InvalidAddress
    else if HasActive(ips, address) then AlreadyBlocked
    else Blocked(BlockedIP(ToDecimal(|ips| + 1), address, reason, today, blockedBy, BlockActive))
  }

  /** A block happens exactly when both fields are filled in, the address is
      valid and not actively blocked; the entry is active and carries the
      form's values. */
  lemma BlockDecisionEffect(ips: seq<BlockedIP>, address: string, reason: string, blockedBy: string, today: string)
    ensures var d := BlockDecision(ips, address, reason, blockedBy, today);
      && (d.Blocked? <==> address != "" && reason != "" && ValidateIP(address) && !HasActive(ips, address))
      && (d == MissingInformation <==> address == "" || reason == "")
      && (d == InvalidAddress <==> address != "" && reason != "" && !ValidateIP(address))
      && (d == AlreadyBlocked <==> address != "" && reason != "" && ValidateIP(address) && HasActive(ips, address))
      && (d.Blocked? ==> d.record.ipAddress == address && d.record.reason == reason
                         && d.record.blockedBy == blockedBy && d.record.blockedDate == today
                         && d.record.status == BlockActive
                         && StringToNumber(d.record.id) == Num(|ips| + 1))
  {
    NumberRoundTrip(|ips| + 1);
  }

  /** Two entries for one address are never both active. */
  function NotBothActive(): (BlockedIP, BlockedIP) -> bool {
    (a: BlockedIP, b: BlockedIP) => a.ipAddress == b.ipAddress ==> a.status != BlockActive || b.status != BlockActive
  }

  predicate AtMostOneActive(ips: seq<BlockedIP>) {
    Pairwise(ips, NotBothActive())
  }

  lemma BlockKeepsOneActive(ips: seq<BlockedIP>, r: BlockedIP)
    requires AtMostOneActive(ips) && !HasActive(ips, r.ipAddress)
    ensures AtMostOneActive([r] + ips)
  {
    var n := [r] + ips;
    forall i, j | 0 <= i < j < |n| ensures NotBothActive()(n[i], n[j]) {
      assert n[j] == ips[j - 1];
      if i > 0 {
        assert n[i] == ips[i - 1];
      }
    }
  }

  lemma UnblockKeepsOneActive(ips: seq<BlockedIP>, id: string)
    requires AtMostOneActive(ips)
    ensures AtMostOneActive(Store.ExpireIP(ips, id))
  {
    var n := Store.ExpireIP(ips, id);
    forall i, j | 0 <= i < j < |n| ensures NotBothActive()(n[i], n[j]) {
      assert NotBothActive()(ips[i], ips[j]);
    }
  }

  /** The page's id is the length plus one, so after a deletion a new entry
      can take an id that is still in use: from the sample list, deleting
      entry "1" and blocking a new address gives a second entry "3". */
  lemma PanelIdCanCollide()
    ensures var ips := Store.DeleteIP(MockBlockedIPs, "1");
      |ips| == 2 && ips[1].id == "3" && ToDecimal(|ips| + 1) == "3"
  {
    var ips := Store.DeleteIP(MockBlockedIPs, "1");
    assert MockBlockedIPs[1..] == [MockBlockedIPs[1], MockBlockedIPs[2]];
    assert Filter(MockBlockedIPs[2..], Store.IPIdIsNot("1")) == [MockBlockedIPs[2]] by {
      assert MockBlockedIPs[2..][1..] == [];
    }
    assert ips == [MockBlockedIPs[1], MockBlockedIPs[2]];
  }

  class IPBlockingPanel {
    var blockedIPs: seq<BlockedIP>

    /** The page starts from the sample list, in which no address is
        actively blocked twice. */
    constructor()
      ensures blockedIPs == MockBlockedIPs
      ensures AtMostOneActive(blockedIPs)
    {
      blockedIPs := MockBlockedIPs;
    }

    /** `handleBlockIP`: a failed guard leaves the list as it was; success
        puts the new entry in front of the old ones. */
    method HandleBlockIP(address: string, reason: string, blockedBy: string, today: string) returns (outcome: BlockOutcome)
      modifies this
      ensures outcome == BlockDecision(old(blockedIPs), address, reason, blockedBy, today)
      ensures outcome.Blocked? ==> blockedIPs == [outcome.record] + old(blockedIPs)
      ensures !outcome.Blocked? ==> blockedIPs == old(blockedIPs)
      ensures old(AtMostOneActive(blockedIPs)) ==> AtMostOneActive(blockedIPs)
    {
      outcome := BlockDecision(blockedIPs, address, reason, blockedBy, today);
      if outcome.Blocked? {
        if AtMostOneActive(blockedIPs) {
          BlockKeepsOneActive(blockedIPs, outcome.record);
        }
        blockedIPs := [outcome.record] + blockedIPs;
      }
    }

    /** `handleUnblockIP`: the entries with the id become expired, as in the
        store's `unblockIP`. */
    method HandleUnblockIP(id: string)
      modifies this
      ensures blockedIPs == Store.ExpireIP(old(blockedIPs), id)
      ensures old(AtMostOneActive(blockedIPs)) ==> AtMostOneActive(blockedIPs)
    {
      if AtMostOneActive(blockedIPs) {
        UnblockKeepsOneActive(blockedIPs, id);
      }
      blockedIPs := Store.ExpireIP(blockedIPs, id);
    }

    /** `handleDeleteIP`: the entries with the id are removed, as in the
        store's `deleteIP`. */
    method HandleDeleteIP(id: string)
      modifies this
      ensures blockedIPs == Store.DeleteIP(old(blockedIPs), id)
      ensures old(AtMostOneActive(blockedIPs)) ==> AtMostOneActive(blockedIPs)
    {
      if AtMostOneActive(blockedIPs) {
        FilterPairwise(blockedIPs, Store.IPIdIsNot(id), NotBothActive());
      }
      blockedIPs := Store.DeleteIP(blockedIPs, id);
    }
  }
}
