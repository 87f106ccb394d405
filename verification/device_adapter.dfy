/** What the device list shows and how it tells rows apart: the
    service-type label and the list-diff identity. */
module DeviceAdapter {
  import opened Wrappers
  import opened Devices
  import DeviceDao

  /** Kotlin's `s.replace(pat, "")`: occurrences of `pat` are removed in
      one left-to-right pass, without overlap; an empty pattern changes
      nothing. */
  function RemoveAll(s: string, pat: string): (r: string)
    ensures |r| <= |s|
    ensures |pat| == 1 ==> pat[0] !in r
    decreases |s|
  {
    if |pat| == 0 || |s| < |pat| then
      assert |pat| == 1 ==> s == [];
      s
    else if s[..|pat|] == pat then RemoveAll(s[|pat|..], pat)
    else
      assert |pat| == 1 ==> s[0] != pat[0] by {
        if |pat| == 1 { assert s[..1] == [s[0]]; }
      }
      [s[0]] + RemoveAll(s[1..], pat)
  }

  /** `s` without any `'_'`, as an independent reference for removing a
      one-character pattern. */
  function WithoutUnderscores(s: string): (r: string)
    ensures forall c :: c in r <==> c in s && c != '_'
    decreases |s|
  {
    if |s| == 0 then []
    else
      var rest := WithoutUnderscores(s[1..]);
      assert forall c :: c in s <==> c == s[0] || c in s[1..];
      if s[0] == '_' then rest else [s[0]] + rest
  }

  /** Removing `"_"` keeps every other character, in order. */
  lemma {:induction false} RemoveUnderscoreIsFilter(s: string)
    ensures RemoveAll(s, "_") == WithoutUnderscores(s)
    decreases |s|
  {
    if |s| > 0 {
      assert s[..1] == [s[0]];
      RemoveUnderscoreIsFilter(s[1..]);
    }
  }

  /** The service-type label of a list row: every `"._tcp."` removed, then
      every `'_'`. */
  function ServiceLabel(serviceType: string): (text: string)
    ensures '_' !in text
    ensures |text| <= |serviceType|
  {
    RemoveAll(RemoveAll(serviceType, "._tcp."), "_")
  }

  /** The detail screen's copy of the label: the same transform, with a
      missing service type shown as `"-"`. */
  function DetailServiceLabel(serviceType: Option<string>): (text: string)
    ensures serviceType.None? ==> text == "-"
    ensures serviceType.Some? ==> text == ServiceLabel(serviceType.value)
  {
    match serviceType
    case None => "-"
    case Some(t) => RemoveAll(RemoveAll(t, "._tcp."), "_")
  }

  /** `pat` occurs in `s` at position `i`. */
  predicate OccursAt(s: string, pat: string, i: nat)
  {
    i + |pat| <= |s| && s[i..i + |pat|] == pat
  }

  /** `pat` occurs nowhere in `s`. */
  predicate NoOccurrence(s: string, pat: string)
  {
    forall i: nat :: i <= |s| ==> !OccursAt(s, pat, i)
  }

  /** Without an occurrence of the pattern, removing it is the identity. */
  lemma {:induction false} RemoveAllNoOccurrence(s: string, pat: string)
    requires NoOccurrence(s, pat)
    ensures RemoveAll(s, pat) == s
    decreases |s|
  {
    if |pat| > 0 && |s| >= |pat| {
      assert !OccursAt(s, pat, 0);
      assert NoOccurrence(s[1..], pat) by {
        forall i: nat | i <= |s[1..]| ensures !OccursAt(s[1..], pat, i) {
          assert !OccursAt(s, pat, i + 1);
          if i + |pat| <= |s[1..]| {
            assert s[1..][i..i + |pat|] == s[i + 1..i + 1 + |pat|];
          }
        }
      }
      RemoveAllNoOccurrence(s[1..], pat);
    }
  }

  /** A string without `'_'` followed by `"._tcp."` loses exactly that
      suffix. */
  lemma {:induction false} StripTcpSuffix(x: string)
    requires '_' !in x
    ensures RemoveAll(x + "._tcp.", "._tcp.") == x
    decreases |x|
  {
    var s := x + "._tcp.";
    if |x| == 0 {
      assert s[..6] == "._tcp.";
      assert s[6..] == [];
    } else {
      assert s[1] != '_' by {
        if |x| >= 2 { assert s[1] == x[1]; } else { assert s[1] == '.'; }
      }
      assert s[..6] != "._tcp." by { assert "._tcp."[1] == '_'; }
      assert s[1..] == x[1..] + "._tcp.";
      assert '_' !in x[1..] by {
        forall c | c in x[1..] ensures c != '_' { assert c in x; }
      }
      StripTcpSuffix(x[1..]);
    }
  }

  /** The label of a TCP service type `"_<name>._tcp."` is `<name>`. */
  lemma TcpLabel(x: string)
    requires '_' !in x
    ensures ServiceLabel("_" + x + "._tcp.") == x
  {
    var s := "_" + x + "._tcp.";
    assert s[..6] != "._tcp." by { assert s[0] == '_'; }
    assert s[1..] == x + "._tcp.";
    StripTcpSuffix(x);
    assert RemoveAll(s, "._tcp.") == "_" + x;
    RemoveUnderscoreIsFilter("_" + x);
    RemoveUnderscoreIsFilter(x);
    assert ("_" + x)[..1] == "_" && ("_" + x)[1..] == x;
    assert NoOccurrence(x, "_") by {
      forall i: nat | i <= |x| ensures !OccursAt(x, "_", i) {
        if i + 1 <= |x| { assert x[i..i + 1] == [x[i]]; }
      }
    }
    RemoveAllNoOccurrence(x, "_");
  }

  /** A UDP service type contains no `"._tcp."`. */
  lemma UdpTypeHasNoTcp(x: string)
    requires '_' !in x
    ensures NoOccurrence("_" + x + "._udp.", "._tcp.")
  {
    var s := "_" + x + "._udp.";
    forall i: nat | i <= |s| ensures !OccursAt(s, "._tcp.", i) {
      if i + 6 <= |s| {
        var w := s[i..i + 6];
        if i < |x| {
          assert w[1] == x[i];
        } else if i == |x| {
          assert w[1] == '.';
        } else {
          assert w[2] == 'u';
        }
      }
    }
  }

  /** Without `'_'`, dropping underscores is the identity. */
  lemma {:induction false} WithoutUnderscoresNone(x: string)
    requires '_' !in x
    ensures WithoutUnderscores(x) == x
    decreases |x|
  {
    if |x| > 0 {
      assert x[0] in x;
      assert '_' !in x[1..] by {
        forall c | c in x[1..] ensures c != '_' { assert c in x; }
      }
      WithoutUnderscoresNone(x[1..]);
    }
  }

  /** `"._udp."` is not stripped: the label of `"_<name>._udp."` is
      `"<name>.udp."` (so `"_sleep-proxy._udp."` shows as
      `"sleep-proxy.udp."`). */
  lemma UdpLabel(x: string)
    requires '_' !in x
    ensures ServiceLabel("_" + x + "._udp.") == x + ".udp."
  {
    var s := "_" + x + "._udp.";
    UdpTypeHasNoTcp(x);
    RemoveAllNoOccurrence(s, "._tcp.");
    RemoveUnderscoreIsFilter(s);
    assert s == "_" + (x + "._udp.");
    WithoutUnderscoresConcat("_", x + "._udp.");
    WithoutUnderscoresConcat(x, "._udp.");
    WithoutUnderscoresNone(x);
    assert WithoutUnderscores("_") == "";
    assert WithoutUnderscores("._udp.") == ".udp.";
  }

  lemma {:induction false} WithoutUnderscoresConcat(a: string, b: string)
    ensures WithoutUnderscores(a + b) == WithoutUnderscores(a) + WithoutUnderscores(b)
    decreases |a|
  {
    if |a| > 0 {
      assert (a + b)[1..] == a[1..] + b;
      assert (a + b)[0] == a[0];
      WithoutUnderscoresConcat(a[1..], b);
    } else {
      assert a + b == b;
    }
  }

  /** `areItemsTheSame`: two rows are the same list item when they have
      the same primary key. */
  function AreItemsTheSame(oldItem: Device, newItem: Device): (same: bool)
    ensures same <==> oldItem.ipAddress == newItem.ipAddress
  {
    oldItem.ipAddress == newItem.ipAddress
  }

  /** `areContentsTheSame`: structural equality of the data class. */
  function AreContentsTheSame(oldItem: Device, newItem: Device): (same: bool)
    ensures same <==> oldItem == newItem
  {
    oldItem == newItem
  }

  /** Same contents implies same item, as the list differ requires. */
  lemma ContentsSameImpliesItemsSame(a: Device, b: Device)
    ensures AreContentsTheSame(a, b) ==> AreItemsTheSame(a, b)
  {
  }

  /** A status change keeps a row the same item but changes its contents,
      so the list rebinds it in place. */
  lemma StatusChangeIsSameItemNewContents(r: DeviceDao.Registry, ip: string, b: bool)
    requires ip in r && r[ip].isOnline != b
    ensures var r' := DeviceDao.UpdateDeviceStatus(r, ip, b);
      AreItemsTheSame(r[ip], r'[ip]) && !AreContentsTheSame(r[ip], r'[ip])
  {
  }

  /** In a snapshot of the table, item identity picks out exactly one
      position. */
  lemma SnapshotItemsAreUnique(s: seq<Device>)
    requires forall i, j :: 0 <= i < j < |s| ==> s[i].ipAddress != s[j].ipAddress
    ensures forall i, j :: 0 <= i < |s| && 0 <= j < |s| ==> (AreItemsTheSame(s[i], s[j]) <==> i == j)
  {
  }
}
