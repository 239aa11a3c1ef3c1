/** The triple WiFi scan: three radio passes merged into one set of access
    points keyed by the formatted BSSID, the last sighting winning. */
module Scan {
  import opened Common

  /** One tuple returned by the radio's scan:
      (ssid, bssid, channel, RSSI, security, hidden). */
  datatype AccessPoint = AccessPoint(
    ssid: seq<Byte>,
    bssid: seq<Byte>,
    channel: int,
    rssi: int,
    security: int,
    hidden: bool)

  /** What one call to the radio's scan gives: it raised, or a batch of tuples. */
  datatype ScanPass = Failed | Scanned(aps: seq<AccessPoint>)

  /** Number of scan cycles. */
  const Cycles: nat := 3

  predicate IsHexDigit(c: char) { '0' <= c <= '9' || 'a' <= c <= 'f' }

  function HexDigit(d: nat): (c: char)
    requires d < 16
    ensures IsHexDigit(c) && HexValue(c) == d
  {
    if d < 10 then ('0' as int + d) as char else ('a' as int + d - 10) as char
  }

  function HexValue(c: char): nat
    requires IsHexDigit(c)
  {
    if c <= '9' then c as int - '0' as int else c as int - 'a' as int + 10
  }

  /** `"%02x" % b`: two lowercase hexadecimal digits. */
  function HexByte(b: Byte): (s: string)
    ensures |s| == 2 && IsHexDigit(s[0]) && IsHexDigit(s[1])
    ensures HexValue(s[0]) * 16 + HexValue(s[1]) == b
  {
    [HexDigit(b / 16), HexDigit(b % 16)]
  }

  /** `":".join("%02x" % b for b in bssid)`. */
  function FormatBssid(bs: seq<Byte>): (s: string)
    ensures |bs| == 0 ==> s == ""
    ensures |bs| > 0 ==> |s| == 3 * |bs| - 1
  {
    if |bs| == 0 then ""
    else if |bs| == 1 then HexByte(bs[0])
    else HexByte(bs[0]) + ":" + FormatBssid(bs[1..])
  }

  /** The formatted address consists of lowercase hex digits and colons only. */
  lemma {:induction false} FormatBssidChars(bs: seq<Byte>)
    ensures forall i :: 0 <= i < |FormatBssid(bs)| ==> IsHexDigit(FormatBssid(bs)[i]) || FormatBssid(bs)[i] == ':'
  {
    if |bs| > 1 {
      FormatBssidChars(bs[1..]);
      var s := FormatBssid(bs);
      var t := FormatBssid(bs[1..]);
      assert s == HexByte(bs[0]) + ":" + t;
      forall i | 3 <= i < |s| ensures s[i] == t[i - 3] { }
    }
  }

  /** Byte k of the address sits at characters 3k and 3k+1, and every
      byte but the last is followed by a colon. */
  lemma {:induction false} FormatBssidAt(bs: seq<Byte>, k: nat)
    requires k < |bs|
    ensures FormatBssid(bs)[3 * k..3 * k + 2] == HexByte(bs[k])
    ensures k < |bs| - 1 ==> FormatBssid(bs)[3 * k + 2] == ':'
  {
    if k > 0 {
      FormatBssidAt(bs[1..], k - 1);
      var s := FormatBssid(bs);
      assert s == HexByte(bs[0]) + ":" + FormatBssid(bs[1..]);
      assert s[3 * k..3 * k + 2] == FormatBssid(bs[1..])[3 * (k - 1)..3 * (k - 1) + 2];
    }
  }

  /** A six-byte hardware address formats to the 17-character text
      `xx:xx:xx:xx:xx:xx`. */
  lemma SixByteAddress(bs: seq<Byte>)
    requires |bs| == 6
    ensures |FormatBssid(bs)| == 17
    ensures forall k :: 0 <= k < 5 ==> FormatBssid(bs)[3 * k + 2] == ':'
  {
    forall k | 0 <= k < 5 ensures FormatBssid(bs)[3 * k + 2] == ':' {
      FormatBssidAt(bs, k);
    }
  }

  /** Distinct addresses have distinct keys, so merging by the formatted
      text is merging by hardware address. */
  lemma FormatBssidInjective(a: seq<Byte>, b: seq<Byte>)
    requires FormatBssid(a) == FormatBssid(b)
    ensures a == b
  {
    assert |a| == |b|;
    forall k | 0 <= k < |a| ensures a[k] == b[k] {
      FormatBssidAt(a, k);
      FormatBssidAt(b, k);
    }
  }

  /** The dictionary key of an access point. */
  function Key(ap: AccessPoint): string { FormatBssid(ap.bssid) }

  function PassAps(p: ScanPass): seq<AccessPoint> { if p.Scanned? then p.aps else [] }

  /** Every tuple delivered by the passes, in delivery order; a failed pass
      contributes nothing. */
  function Seen(passes: seq<ScanPass>): (aps: seq<AccessPoint>)
    ensures forall c, j :: 0 <= c < |passes| && 0 <= j < |PassAps(passes[c])| ==> PassAps(passes[c])[j] in aps
    ensures forall ap :: ap in aps ==> exists c :: 0 <= c < |passes| && ap in PassAps(passes[c])
  {
    if passes == [] then []
    else
      var init, last := passes[..|passes| - 1], PassAps(passes[|passes| - 1]);
      var aps := Seen(init) + last;
      assert forall c, j :: 0 <= c < |passes| && 0 <= j < |PassAps(passes[c])| ==> PassAps(passes[c])[j] in aps by {
        forall c, j | 0 <= c < |passes| && 0 <= j < |PassAps(passes[c])| ensures PassAps(passes[c])[j] in aps {
          if c < |init| {
            assert passes[c] == init[c];
          }
        }
      }
      assert forall ap :: ap in aps ==> exists c :: 0 <= c < |passes| && ap in PassAps(passes[c]) by {
        forall ap | ap in aps ensures exists c :: 0 <= c < |passes| && ap in PassAps(passes[c]) {
          if ap in Seen(init) {
            var c :| 0 <= c < |init| && ap in PassAps(init[c]);
            assert passes[c] == init[c];
          } else {
            assert ap in PassAps(passes[|passes| - 1]);
          }
        }
      }
      aps
  }

  /** The dictionary after storing each tuple under its key, in order. */
  function MergeAps(aps: seq<AccessPoint>): (m: map<string, AccessPoint>)
    ensures forall k :: k in m ==> Key(m[k]) == k
  {
    if aps == [] then map[]
    else MergeAps(aps[..|aps| - 1])[Key(aps[|aps| - 1]) := aps[|aps| - 1]]
  }

  /** Storing one more tuple overwrites (or adds) its key only. */
  lemma MergeStep(aps: seq<AccessPoint>, ap: AccessPoint)
    ensures MergeAps(aps + [ap]) == MergeAps(aps)[Key(ap) := ap]
  {
    assert (aps + [ap])[..|aps|] == aps;
  }

  /** The merged view of a sequence of passes. */
  function Merged(passes: seq<ScanPass>): map<string, AccessPoint>
  {
    MergeAps(Seen(passes))
  }

  /** Position i holds the last tuple of `aps` whose key is k. */
  predicate IsLastWith(aps: seq<AccessPoint>, i: int, k: string)
  {
    0 <= i < |aps| && Key(aps[i]) == k && forall j :: i < j < |aps| ==> Key(aps[j]) != k
  }

  /** A key is present in the merged dictionary exactly when some tuple carries it. */
  lemma {:induction false} MergedKeys(aps: seq<AccessPoint>)
    ensures forall k :: k in MergeAps(aps) <==> exists i :: 0 <= i < |aps| && Key(aps[i]) == k
  {
    if aps != [] {
      var n := |aps| - 1;
      var init := aps[..n];
      MergedKeys(init);
      assert MergeAps(aps) == MergeAps(init)[Key(aps[n]) := aps[n]];
      forall k | k in MergeAps(aps) ensures exists i :: 0 <= i < |aps| && Key(aps[i]) == k {
        if k != Key(aps[n]) {
          assert k in MergeAps(init);
          var i :| 0 <= i < |init| && Key(init[i]) == k;
          assert Key(aps[i]) == k;
        } else {
          assert Key(aps[n]) == k;
        }
      }
      forall k | exists i :: 0 <= i < |aps| && Key(aps[i]) == k ensures k in MergeAps(aps) {
        var i :| 0 <= i < |aps| && Key(aps[i]) == k;
        if i < n { assert Key(init[i]) == k; }
      }
    }
  }

  /** Last write wins: a key maps to the last tuple that carries it. */
  lemma {:induction false} LastWriteWins(aps: seq<AccessPoint>)
    ensures forall k, i :: IsLastWith(aps, i, k) ==> k in MergeAps(aps) && MergeAps(aps)[k] == aps[i]
  {
    if aps != [] {
      var n := |aps| - 1;
      var init := aps[..n];
      LastWriteWins(init);
      assert MergeAps(aps) == MergeAps(init)[Key(aps[n]) := aps[n]];
      forall k, i | IsLastWith(aps, i, k) ensures k in MergeAps(aps) && MergeAps(aps)[k] == aps[i] {
        if i < n {
          assert IsLastWith(init, i, k);
        }
      }
    }
  }

  /** The tuples seen by the first c passes are a prefix of all tuples seen. */
  lemma {:induction false} SeenPrefix(passes: seq<ScanPass>, c: nat)
    requires c <= |passes|
    ensures Seen(passes[..c]) <= Seen(passes)
    decreases |passes|
  {
    if c < |passes| {
      var init := passes[..|passes| - 1];
      assert passes[..c] == init[..c];
      SeenPrefix(init, c);
    } else {
      assert passes[..c] == passes;
    }
  }

  /** A failed pass does not remove anything merged by earlier passes:
      every key present after the first c passes is present at the end. */
  lemma EarlierEntriesKept(passes: seq<ScanPass>, c: nat)
    requires c <= |passes|
    ensures Merged(passes[..c]).Keys <= Merged(passes).Keys
  {
    SeenPrefix(passes, c);
    MergedKeys(Seen(passes[..c]));
    MergedKeys(Seen(passes));
    forall k | k in Merged(passes[..c]) ensures k in Merged(passes) {
      var s := Seen(passes[..c]);
      var i :| 0 <= i < |s| && Key(s[i]) == k;
      assert Seen(passes)[i] == s[i];
    }
  }

  /** A pass that raises contributes nothing. */
  lemma FailedPassAddsNothing(passes: seq<ScanPass>)
    ensures Merged(passes + [Failed]) == Merged(passes)
  {
    assert (passes + [Failed])[..|passes|] == passes;
    assert Seen(passes + [Failed]) == Seen(passes) + [];
    assert Seen(passes) + [] == Seen(passes);
  }

  /** The body of one successful cycle: each tuple of the batch stored
      under its formatted BSSID, a new key appended to the key order. */
  method MergeBatch(scanResults0: map<string, AccessPoint>, order0: seq<string>,
                    currentBatch: seq<AccessPoint>, ghost before: seq<AccessPoint>)
    returns (scanResults: map<string, AccessPoint>, order: seq<string>)
    requires scanResults0 == MergeAps(before)
    requires forall i, j :: 0 <= i < j < |order0| ==> order0[i] != order0[j]
    requires forall k :: k in scanResults0 <==> k in order0
    ensures scanResults == MergeAps(before + currentBatch)
    ensures forall i, j :: 0 <= i < j < |order| ==> order[i] != order[j]
    ensures forall k :: k in scanResults <==> k in order
  {
    scanResults, order := scanResults0, order0;
    assert before + currentBatch[..0] == before;
    for j := 0 to |currentBatch|
      invariant scanResults == MergeAps(before + currentBatch[..j])
      invariant forall i, i' :: 0 <= i < i' < |order| ==> order[i] != order[i']
      invariant forall k :: k in scanResults <==> k in order
    {
      var ap := currentBatch[j];
      var bssid := FormatBssid(ap.bssid);
      if bssid !in scanResults {
        order := order + [bssid];
      }
      scanResults := scanResults[bssid := ap];
      assert currentBatch[..j + 1] == currentBatch[..j] + [ap];
      assert before + currentBatch[..j + 1] == (before + currentBatch[..j]) + [ap];
      MergeStep(before + currentBatch[..j], ap);
    }
    assert currentBatch[..|currentBatch|] == currentBatch;
  }

  /** One more pass adds what it delivered to what was seen. */
  lemma SeenStep(radio: seq<ScanPass>, cycle: nat)
    requires cycle < |radio|
    ensures Seen(radio[..cycle + 1]) == Seen(radio[..cycle]) + PassAps(radio[cycle])
  {
    assert radio[..cycle + 1][..cycle] == radio[..cycle];
  }

  /** do_triscan: three scan cycles, each tuple of a successful pass stored
      under its formatted BSSID (the later overwriting the earlier), then the
      dictionary's values. The device's dictionary does not keep insertion
      order, so the order of the result is unspecified; the key list here is
      only one order the values may come in. `radio[c]` is what the
      c-th call to the radio's scan gives. */
  method DoTriscan(radio: seq<ScanPass>) returns (results: seq<AccessPoint>)
    requires |radio| == Cycles
    ensures forall i, j :: 0 <= i < j < |results| ==> Key(results[i]) != Key(results[j])
    ensures forall i :: 0 <= i < |results| ==>
      Key(results[i]) in Merged(radio) && Merged(radio)[Key(results[i])] == results[i]
    ensures forall k :: k in Merged(radio) ==> exists i :: 0 <= i < |results| && Key(results[i]) == k
  {
    var scanResults: map<string, AccessPoint> := map[];
    var order: seq<string> := [];
    for cycle := 0 to Cycles
      invariant scanResults == MergeAps(Seen(radio[..cycle]))
      invariant forall i, j :: 0 <= i < j < |order| ==> order[i] != order[j]
      invariant forall k :: k in scanResults <==> k in order
    {
      SeenStep(radio, cycle);
      match radio[cycle] {
        case Failed =>
          assert Seen(radio[..cycle]) + [] == Seen(radio[..cycle]);
        case Scanned(currentBatch) =>
          scanResults, order := MergeBatch(scanResults, order, currentBatch, Seen(radio[..cycle]));
      }
    }
    assert radio[..Cycles] == radio;
    results := seq(|order|, i requires 0 <= i < |order| => scanResults[order[i]]);
    ValuesCoverKeys(scanResults, order, results);
    assert scanResults == Merged(radio);
  }

  /** Listing a key-consistent dictionary's values along a duplicate-free
      list of all its keys gives one tuple per key. */
  lemma ValuesCoverKeys(m: map<string, AccessPoint>, order: seq<string>, values: seq<AccessPoint>)
    requires forall k :: k in m ==> Key(m[k]) == k
    requires forall i, j :: 0 <= i < j < |order| ==> order[i] != order[j]
    requires forall k :: k in m <==> k in order
    requires |values| == |order| && forall i :: 0 <= i < |order| ==> values[i] == m[order[i]]
    ensures forall i, j :: 0 <= i < j < |values| ==> Key(values[i]) != Key(values[j])
    ensures forall i :: 0 <= i < |values| ==> Key(values[i]) in m && m[Key(values[i])] == values[i]
    ensures forall k :: k in m ==> exists i :: 0 <= i < |values| && Key(values[i]) == k
  {
    forall k | k in m ensures exists i :: 0 <= i < |values| && Key(values[i]) == k {
      var i :| 0 <= i < |order| && order[i] == k;
      assert Key(values[i]) == k;
    }
  }
}
