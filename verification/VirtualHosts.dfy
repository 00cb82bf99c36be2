/**
 Virtual-host style requests: host entries are sorted by specificity when the
 configuration is built, and a request takes the first entry that matches.
 */
module VirtualHosts {
  import opened Text
  import opened Ordering

  /** A wildcard entry takes the bucket from the subdomain unless it names one; a plain host never matches. */
  datatype Matching = Never | Wildcard | Exact

  datatype Host = Host(suffix: string, port: string, bucketName: string, matching: Matching)

  /** maybeSplitHostAndPort; None for an empty host or an empty port. */
  function SplitHostPort(v: string): Option<(string, string)> {
    match IndexByte(v, ':')
    case None => Some((v, ""))
    case Some(i) => if i == 0 || i + 1 >= |v| then None else Some((v[..i], v[i + 1..]))
  }

  /** The extractor functions: the bucket that an entry gives to a request's host. */
  function Extract(h: Host, name: string): Option<string> {
    match SplitHostPort(name)
    case None => None
    case Some((host, port)) =>
      if h.matching.Never? || (h.port != "" && h.port != port) then None
      else if h.matching.Exact? then
        if h.suffix != host then None else Some(h.bucketName)
      else if !HasSuffix(host, h.suffix) || |host| < |h.suffix| + 1 then None
      else if h.bucketName != "" then Some(h.bucketName)
      else
        var bucket := host[..|host| - |h.suffix|];
        if '.' in bucket then None else Some(bucket)
  }

  /** The first entry that matches decides. */
  function FirstMatch(hosts: seq<Host>, name: string): Option<string> {
    if hosts == [] then None
    else if Extract(hosts[0], name).Some? then Extract(hosts[0], name)
    else FirstMatch(hosts[1..], name)
  }

  method GetBucketMapping(hosts: seq<Host>, name: string) returns (bucket: Option<string>)
    ensures bucket == FirstMatch(hosts, name)
  {
    for i := 0 to |hosts|
      invariant FirstMatch(hosts[i..], name) == FirstMatch(hosts, name)
    {
      assert hosts[i..][1..] == hosts[i + 1..];
      var b := Extract(hosts[i], name);
      if b.Some? {
        return b;
      }
    }
    bucket := None;
  }

  // ----- reading the configuration -----

  predicate IsLabelChar(c: char) {
    'a' <= c <= 'z' || 'A' <= c <= 'Z' || '0' <= c <= '9' || c == '-'
  }

  predicate ValidAt(v: string, i: nat)
    requires i < |v|
  {
    IsLabelChar(v[i]) || (v[i] == '.' && i > 0 && v[i - 1] != '.')
  }

  /** Label characters and dots, with no dot at the front or after another dot. */
  predicate ValidName(v: string) { forall i :: 0 <= i < |v| ==> ValidAt(v, i) }

  predicate AllLabelChars(s: string) { forall i :: 0 <= i < |s| ==> IsLabelChar(s[i]) }

  /** Labels, of which only the last may be empty. */
  predicate Labels(parts: seq<string>) {
    forall i :: 0 <= i < |parts| ==> AllLabelChars(parts[i]) && (i < |parts| - 1 ==> parts[i] != "")
  }

  /** A valid name is labels with dots between them, and perhaps one at the end. */
  lemma {:induction false} ValidIffLabels(v: string)
    ensures ValidName(v) <==> Labels(Parts(v, '.'))
    decreases |v|
  {
    hide AllLabelChars;
    IndexByteFirst(v, '.');
    match IndexByte(v, '.')
    case None =>
      OneLabel(v);
      assert Parts(v, '.') == [v] && [v][0] == v;
    case Some(i) =>
      var rest := v[i + 1..];
      ValidIffLabels(rest);
      FirstLabel(v, i);
      assert Parts(v, '.') == [v[..i]] + Parts(rest, '.');
      LabelsCons(v[..i], Parts(rest, '.'));
  }

  lemma {:induction false} OneLabel(v: string)
    requires '.' !in v
    ensures ValidName(v) <==> AllLabelChars(v)
  {
    if ValidName(v) {
      forall i | 0 <= i < |v|
        ensures IsLabelChar(v[i])
      {
        assert ValidAt(v, i) && v[i] in v;
      }
    }
  }

  lemma {:induction false} FirstLabel(v: string, i: nat)
    requires i < |v| && v[i] == '.' && '.' !in v[..i]
    ensures ValidName(v) <==> v[..i] != "" && AllLabelChars(v[..i]) && ValidName(v[i + 1..])
  {
    var head, rest := v[..i], v[i + 1..];
    assert forall k :: 0 <= k < i ==> v[k] in head;
    assert forall k :: 0 <= k < |rest| ==> rest[k] == v[k + i + 1];
    if ValidName(v) {
      assert ValidAt(v, i);
      forall k | 0 <= k < i
        ensures IsLabelChar(head[k])
      {
        assert ValidAt(v, k);
      }
      forall k | 0 <= k < |rest|
        ensures ValidAt(rest, k)
      {
        assert ValidAt(v, k + i + 1);
      }
    }
    if head != "" && AllLabelChars(head) && ValidName(rest) {
      forall k | 0 <= k < |v|
        ensures ValidAt(v, k)
      {
        if k < i {
          assert IsLabelChar(head[k]);
        } else if k > i {
          assert ValidAt(rest, k - i - 1);
        } else {
          assert v[i - 1] == head[i - 1] && head[i - 1] in head;
        }
      }
    }
  }

  lemma {:induction false} LabelsCons(head: string, rest: seq<string>)
    requires rest != []
    ensures Labels([head] + rest) <==> head != "" && AllLabelChars(head) && Labels(rest)
  {
    var all := [head] + rest;
    assert all[0] == head && forall i :: 0 <= i < |rest| ==> all[i + 1] == rest[i];
    if Labels(all) {
      forall i | 0 <= i < |rest|
        ensures AllLabelChars(rest[i]) && (i < |rest| - 1 ==> rest[i] != "")
      {
        assert AllLabelChars(all[i + 1]);
      }
    }
  }

  method ValidateHostName(v: string) returns (ok: bool)
    ensures ok <==> ValidName(v)
  {
    var i, s := 0, 0;
    while true
      invariant 0 <= i == s <= |v|
      invariant i == 0 || v[i - 1] == '.'
      invariant forall k :: 0 <= k < i ==> ValidAt(v, k)
      decreases |v| - i
    {
      while true
        invariant s <= i <= |v|
        invariant i > s ==> IsLabelChar(v[i - 1])
        invariant forall k :: 0 <= k < i ==> ValidAt(v, k)
        decreases |v| - i
      {
        if i >= |v| {
          return true;
        }
        if v[i] == '.' {
          if s == i {
            assert !ValidAt(v, i);
            return false;
          }
          break;
        }
        if !IsLabelChar(v[i]) {
          assert !ValidAt(v, i);
          return false;
        }
        i := i + 1;
      }
      assert ValidAt(v, i);
      i := i + 1;
      s := i;
    }
  }

  /** A configured entry: a host pattern, or a host with the bucket it stands for. */
  datatype Entry = Pattern(hostPort: string) | Mapping(hostPort: string, bucket: string)

  predicate IsWild(host: string) { |host| > 2 && host[0] == '*' && host[1] == '.' }

  /** handleWild and handleExactMapping; None where an error is reported. */
  function HostOf(entry: Entry): Option<Host> {
    match SplitHostPort(entry.hostPort)
    case None => None
    case Some((name, port)) =>
      if entry.Mapping? then
        if IsWild(name) then
          if ValidName(name[2..]) then Some(Host(name[1..], port, entry.bucket, Wildcard)) else None
        else if ValidName(name) then Some(Host(name, port, entry.bucket, Exact))
        else None
      else
        var host := TrimSuffix(name, ".");
        if host == "" then None
        else if host[0] == '.' then
          if ValidName(host[1..]) then Some(Host(host, port, "", Wildcard)) else None
        else if |host| > 2 && host[0] == '*' then
          if host[1] == '.' && ValidName(host[2..]) then Some(Host(host[1..], port, "", Wildcard)) else None
        else if ValidName(host) then Some(Host(host, port, "", Never))
        else None
  }

  /** Entries in the order of the configuration; None if any of them is wrong. */
  function HostsOf(entries: seq<Entry>): Option<seq<Host>> {
    if entries == [] then Some([])
    else
      match (HostOf(entries[0]), HostsOf(entries[1..]))
      case (Some(h), Some(rest)) => Some([h] + rest)
      case _ => None
  }

  /** A configured wildcard without a bucket of its own gives exactly the one label before its suffix. */
  lemma {:induction false} WildcardTakesLabel(entry: Entry, name: string, bucket: string)
    requires HostOf(entry).Some? && HostOf(entry).value.matching.Wildcard? && HostOf(entry).value.bucketName == ""
    ensures var h := HostOf(entry).value;
            h.suffix != "" && h.suffix[0] == '.'
            && (Extract(h, name) == Some(bucket) <==>
                bucket != "" && '.' !in bucket
                && exists port :: SplitHostPort(name) == Some((bucket + h.suffix, port))
                                  && (h.port == "" || h.port == port))
  {
    hide SplitHostPort, ValidName;
    var h := HostOf(entry).value;
    if SplitHostPort(name).Some? {
      var (host, port) := SplitHostPort(name).value;
      if HasSuffix(host, h.suffix) {
        assert host == host[..|host| - |h.suffix|] + h.suffix;
      }
      if host == bucket + h.suffix {
        assert host[..|bucket|] == bucket && host[|bucket|..] == h.suffix;
      }
    }
  }

  // ----- what entries mean -----

  /** A host with a port, and a host alone. */
  lemma {:induction false} SplitForms(host: string, port: string)
    requires ':' !in host
    ensures SplitHostPort(host) == Some((host, ""))
    ensures SplitHostPort(host + ":" + port) == if host != "" && port != "" then Some((host, port)) else None
  {
    IndexByteFirst(host, ':');
    IndexByteAt(host, ':', port);
    var v := host + ":" + port;
    assert v[..|host|] == host && v[|host| + 1..] == port;
  }

  /** The request is for this host, and on the port of the entry if it names one. */
  predicate Addressed(name: string, host: string, port: string) {
    SplitHostPort(name).Some? && SplitHostPort(name).value.0 == host
    && (port == "" || SplitHostPort(name).value.1 == port)
  }

  /**
   When an entry answers, and with which bucket: an exact one for its own host
   with its own bucket; a wildcard for anything before its suffix with its own
   bucket, or for one label before its suffix with that label; a plain host never.
   */
  lemma {:induction false} ExtractIff(h: Host, name: string, bucket: string)
    ensures Extract(h, name) == Some(bucket) <==>
            match h.matching
            case Never => false
            case Exact => Addressed(name, h.suffix, h.port) && bucket == h.bucketName
            case Wildcard =>
              exists front :: front != "" && Addressed(name, front + h.suffix, h.port)
                              && if h.bucketName != "" then bucket == h.bucketName
                                 else bucket == front && '.' !in front
  {
    hide SplitHostPort;
    if h.matching.Wildcard? && SplitHostPort(name).Some? {
      var host := SplitHostPort(name).value.0;
      var front := host[..Max(|host| - |h.suffix|, 0)];
      if HasSuffix(host, h.suffix) {
        assert host == front + h.suffix;
      }
      forall other | host == other + h.suffix
        ensures other == front && HasSuffix(host, h.suffix)
      {
        assert (other + h.suffix)[..|other|] == other && (other + h.suffix)[|other|..] == h.suffix;
      }
    }
  }

  /** A host name of labels. */
  predicate ProperHost(host: string) { host != "" && ValidName(host) && host[|host| - 1] != '.' }

  lemma {:induction false} ProperHostIsPlain(host: string)
    requires ProperHost(host)
    ensures ':' !in host && host[0] != '*' && host[0] != '.'
  {
    forall i | 0 <= i < |host|
      ensures host[i] != ':'
    {
      assert ValidAt(host, i);
    }
    assert ValidAt(host, 0);
  }

  predicate PortText(text: string, port: string) { if port == "" then text == "" else text == ":" + port }

  lemma {:induction false} SplitConfigured(host: string, text: string, port: string)
    requires ':' !in host && host != "" && PortText(text, port)
    ensures SplitHostPort(host + text) == Some((host, port))
  {
    SplitForms(host, port);
    assert port == "" ==> host + text == host;
    assert port != "" ==> host + text == host + ":" + port;
  }

  /** What the forms of configuration entries become. */
  lemma {:induction false} ConfiguredHosts(host: string, text: string, port: string, bucket: string)
    requires ProperHost(host) && PortText(text, port)
    ensures HostOf(Mapping(host + text, bucket)) == Some(Host(host, port, bucket, Exact))
    ensures HostOf(Mapping("*." + host + text, bucket)) == Some(Host("." + host, port, bucket, Wildcard))
    ensures HostOf(Pattern("*." + host + text)) == Some(Host("." + host, port, "", Wildcard))
    ensures HostOf(Pattern("." + host + text)) == Some(Host("." + host, port, "", Wildcard))
    ensures HostOf(Pattern(host + text)) == Some(Host(host, port, "", Never))
  {
    hide SplitHostPort, ValidName;
    ProperHostIsPlain(host);
    SplitConfigured(host, text, port);
    SplitConfigured("*." + host, text, port);
    SplitConfigured("." + host, text, port);
    var star, dot := "*." + host, "." + host;
    assert star[1..] == dot && star[2..] == host && dot[1..] == host;
    NoFinalDot(host);
    NoFinalDot(star);
    NoFinalDot(dot);
  }

  lemma {:induction false} NoFinalDot(s: string)
    requires s != "" && s[|s| - 1] != '.'
    ensures TrimSuffix(s, ".") == s
  {
    assert s[|s| - 1..] == [s[|s| - 1]];
  }

  // ----- specificity -----

  /** The comparison of the sort: entries with a port first, then longer suffixes. */
  predicate HostLe(a: Host, b: Host) {
    if (a.port != "") != (b.port != "") then a.port != "" else |a.suffix| >= |b.suffix|
  }

  /** An entry with its place in the configuration, which a stable sort keeps among equals. */
  datatype Placed = Placed(host: Host, index: nat)

  predicate PlacedLe(a: Placed, b: Placed) {
    HostLe(a.host, b.host) && (HostLe(b.host, a.host) ==> a.index <= b.index)
  }

  function PlaceFrom(hosts: seq<Host>, n: nat): seq<Placed> {
    if hosts == [] then [] else [Placed(hosts[0], n)] + PlaceFrom(hosts[1..], n + 1)
  }

  function Hosts(placed: seq<Placed>): seq<Host> {
    if placed == [] then [] else [placed[0].host] + Hosts(placed[1..])
  }

  lemma {:induction false} InsertPlaced(x: Placed, s: seq<Placed>)
    requires forall y :: y in s ==> x.index < y.index
    ensures Hosts(Insert(PlacedLe, x, s)) == Insert(HostLe, x.host, Hosts(s))
  {
    if s != [] {
      InsertPlaced(x, s[1..]);
      var t := Insert(PlacedLe, x, s);
      assert t[1..] == if PlacedLe(x, s[0]) then s else Insert(PlacedLe, x, s[1..]);
      assert Hosts(s)[1..] == Hosts(s[1..]);
    } else {
      assert [x][1..] == [];
    }
  }

  lemma {:induction false} PlaceElements(hosts: seq<Host>, n: nat)
    ensures |PlaceFrom(hosts, n)| == |hosts|
    ensures forall i :: 0 <= i < |hosts| ==> PlaceFrom(hosts, n)[i] == Placed(hosts[i], n + i)
    decreases |hosts|
  {
    if hosts != [] {
      var rest := PlaceFrom(hosts[1..], n + 1);
      PlaceElements(hosts[1..], n + 1);
      assert PlaceFrom(hosts, n) == [Placed(hosts[0], n)] + rest;
      forall i | 0 < i < |hosts|
        ensures PlaceFrom(hosts, n)[i] == Placed(hosts[i], n + i)
      {
        assert rest[i - 1] == Placed(hosts[1..][i - 1], n + i);
      }
    }
  }

  lemma {:induction false} SortPlaced(hosts: seq<Host>, n: nat)
    ensures Hosts(Sort(PlacedLe, PlaceFrom(hosts, n))) == Sort(HostLe, hosts)
    decreases |hosts|
  {
    if hosts != [] {
      var rest := PlaceFrom(hosts[1..], n + 1);
      SortPlaced(hosts[1..], n + 1);
      PlaceElements(hosts[1..], n + 1);
      SortElements(PlacedLe, rest);
      InsertPlaced(Placed(hosts[0], n), Sort(PlacedLe, rest));
      assert PlaceFrom(hosts, n)[1..] == rest;
    }
  }

  /**
   Whatever the library's stable sort does: a rearrangement of the entries by
   specificity that keeps equally specific ones in place order is this one.
   */
  lemma {:induction false} StableSort(hosts: seq<Host>, arranged: seq<Placed>)
    requires multiset(arranged) == multiset(PlaceFrom(hosts, 0)) && SortedBy(PlacedLe, arranged)
    ensures Hosts(arranged) == Sort(HostLe, hosts)
  {
    hide HostLe;
    var placed := PlaceFrom(hosts, 0);
    PlacedOrder();
    PlaceElements(hosts, 0);
    SortPlaced(hosts, 0);
    SortSorts(PlacedLe, placed);
    SortPermutes(PlacedLe, placed);
    SameElements(arranged, placed);
    SortedUnique(PlacedLe, arranged, Sort(PlacedLe, placed));
  }

  lemma PlacedOrder()
    ensures TotalPreorder(PlacedLe)
  {}

  predicate Matches(p: Placed, name: string) { Extract(p.host, name).Some? }

  lemma {:induction false} FirstOfSorted(s: seq<Placed>, name: string)
    requires SortedBy(PlacedLe, s)
    ensures match FirstMatch(Hosts(s), name)
      case None => forall y :: y in s ==> !Matches(y, name)
      case Some(bucket) =>
        exists w :: w in s && Extract(w.host, name) == Some(bucket)
                    && forall y :: y in s && Matches(y, name) ==> PlacedLe(w, y)
  {
    hide Extract;
    if s != [] {
      assert Hosts(s)[1..] == Hosts(s[1..]);
      assert s == [s[0]] + s[1..];
      if Matches(s[0], name) {
        PlacedOrder();
        HeadFirst(PlacedLe, s);
      } else {
        FirstOfSorted(s[1..], name);
      }
    }
  }

  /**
   The entry at i matches, and of the matching entries none has a port unless it
   has one, none with the same port status has a longer suffix, and none with a
   suffix of that length comes earlier.
   */
  ghost predicate MostSpecific(hosts: seq<Host>, name: string, i: nat) {
    && i < |hosts| && Extract(hosts[i], name).Some?
    && forall j :: 0 <= j < |hosts| && Extract(hosts[j], name).Some? ==> NotAfter(hosts, i, j)
  }

  predicate NotAfter(hosts: seq<Host>, i: nat, j: nat)
    requires i < |hosts| && j < |hosts|
  {
    && (hosts[j].port != "" ==> hosts[i].port != "")
    && ((hosts[i].port == "" <==> hosts[j].port == "") ==>
        |hosts[j].suffix| <= |hosts[i].suffix| && (|hosts[j].suffix| == |hosts[i].suffix| ==> i <= j))
  }

  lemma NotAfterIff(hosts: seq<Host>, i: nat, j: nat)
    requires i < |hosts| && j < |hosts|
    ensures NotAfter(hosts, i, j) <==> PlacedLe(Placed(hosts[i], i), Placed(hosts[j], j))
  {}

  /** Lookup in the sorted entries takes the most specific match, and fails only if nothing matches. */
  lemma {:induction false} LookupIsMostSpecific(hosts: seq<Host>, name: string)
    ensures match FirstMatch(Sort(HostLe, hosts), name)
      case None => forall i :: 0 <= i < |hosts| ==> Extract(hosts[i], name).None?
      case Some(bucket) => exists i: nat :: MostSpecific(hosts, name, i) && Extract(hosts[i], name) == Some(bucket)
  {
    hide Extract, PlacedLe, HostLe, Sort, PlaceFrom, Hosts, FirstMatch;
    var placed := PlaceFrom(hosts, 0);
    var sorted := Sort(PlacedLe, placed);
    PlacedOrder();
    SortPlaced(hosts, 0);
    PlaceElements(hosts, 0);
    SortSorts(PlacedLe, placed);
    SortElements(PlacedLe, placed);
    FirstOfSorted(sorted, name);
    assert forall i :: 0 <= i < |hosts| ==> Placed(hosts[i], i) == placed[i] && placed[i] in sorted;
    match FirstMatch(Sort(HostLe, hosts), name)
    case None =>
      assert forall i :: 0 <= i < |hosts| ==> !Matches(Placed(hosts[i], i), name);
    case Some(bucket) =>
      var w :| w in sorted && Extract(w.host, name) == Some(bucket)
               && forall y :: y in sorted && Matches(y, name) ==> PlacedLe(w, y);
      assert w == Placed(hosts[w.index], w.index);
      assert forall j :: 0 <= j < |hosts| && Extract(hosts[j], name).Some? ==> Matches(Placed(hosts[j], j), name);
      forall j | 0 <= j < |hosts| && Extract(hosts[j], name).Some?
        ensures NotAfter(hosts, w.index, j)
      {
        NotAfterIff(hosts, w.index, j);
      }
      assert MostSpecific(hosts, name, w.index);
  }

  lemma {:induction false} ExactIsMoreSpecific(e: Host, w: Host, name: string)
    requires e.matching.Exact? && w.matching.Wildcard? && (e.port != "") == (w.port != "")
    requires Extract(e, name).Some? && Extract(w, name).Some?
    ensures !HostLe(w, e)
  {
    hide SplitHostPort;
  }

  /** If an exact entry matches, the lookup answers from no wildcard with the same port status. */
  lemma {:induction false} ExactBeatsWildcard(hosts: seq<Host>, name: string, i: nat)
    requires i < |hosts| && hosts[i].matching.Exact? && Extract(hosts[i], name).Some?
    ensures exists k: nat ::
              && MostSpecific(hosts, name, k)
              && FirstMatch(Sort(HostLe, hosts), name) == Extract(hosts[k], name)
              && ((hosts[k].port != "") == (hosts[i].port != "") ==> hosts[k].matching.Exact?)
  {
    hide HostLe, Sort, FirstMatch, SplitHostPort;
    LookupIsMostSpecific(hosts, name);
    var k: nat :| MostSpecific(hosts, name, k) && FirstMatch(Sort(HostLe, hosts), name) == Extract(hosts[k], name);
    assert NotAfter(hosts, k, i);
    NotAfterIff(hosts, k, i);
    if hosts[k].matching.Wildcard? && (hosts[k].port != "") == (hosts[i].port != "") {
      ExactIsMoreSpecific(hosts[i], hosts[k], name);
    }
  }

  /** Two entries that match one host and are equally specific have the same suffix and the same port. */
  lemma {:induction false} EquallySpecific(a: Host, b: Host, name: string)
    requires Extract(a, name).Some? && Extract(b, name).Some? && HostLe(a, b) && HostLe(b, a)
    ensures a.suffix == b.suffix && a.port == b.port
  {
    hide SplitHostPort;
  }

  /** No two entries differ in nothing but bucket or kind. */
  predicate NoClash(hosts: seq<Host>) {
    forall i, j :: 0 <= i < j < |hosts| ==> hosts[i].suffix != hosts[j].suffix || hosts[i].port != hosts[j].port
                                            || hosts[i] == hosts[j]
  }

  /** Without clashes the order of the configuration does not matter. */
  lemma {:induction false} OrderIrrelevant(hosts: seq<Host>, others: seq<Host>, name: string)
    requires multiset(hosts) == multiset(others) && NoClash(hosts)
    ensures FirstMatch(Sort(HostLe, hosts), name) == FirstMatch(Sort(HostLe, others), name)
  {
    hide Extract, HostLe, PlacedLe, Sort, FirstMatch, NoClash;
    SameElements(hosts, others);
    LookupIsMostSpecific(hosts, name);
    LookupIsMostSpecific(others, name);
    var r, q := FirstMatch(Sort(HostLe, hosts), name), FirstMatch(Sort(HostLe, others), name);
    if r.Some? {
      var i: nat :| MostSpecific(hosts, name, i) && Extract(hosts[i], name) == r;
      MatchIn(hosts, others, name, i);
      if q.Some? {
        var j: nat :| MostSpecific(others, name, j) && Extract(others[j], name) == q;
        WinnersAgree(hosts, others, name, i, j);
      }
    } else if q.Some? {
      var j: nat :| MostSpecific(others, name, j) && Extract(others[j], name) == q;
      MatchIn(others, hosts, name, j);
    }
  }

  lemma {:induction false} MatchIn(hosts: seq<Host>, others: seq<Host>, name: string, i: nat)
    requires MostSpecific(hosts, name, i) && forall h :: h in hosts ==> h in others
    ensures exists j :: 0 <= j < |others| && Extract(others[j], name).Some?
  {
    hide Extract, PlacedLe;
    assert hosts[i] in hosts;
    var j :| 0 <= j < |others| && others[j] == hosts[i];
  }

  lemma {:induction false} WinnersAgree(hosts: seq<Host>, others: seq<Host>, name: string, i: nat, j: nat)
    requires (forall h :: h in hosts <==> h in others) && NoClash(hosts)
    requires MostSpecific(hosts, name, i) && MostSpecific(others, name, j)
    ensures hosts[i] == others[j]
  {
    hide Extract, HostLe;
    MutuallyBest(hosts, others, name, i, j);
    MutuallyBest(others, hosts, name, j, i);
    EquallySpecific(hosts[i], others[j], name);
    var k :| 0 <= k < |hosts| && hosts[k] == others[j];
    assert hosts[i] == hosts[k];
  }

  lemma {:induction false} MutuallyBest(hosts: seq<Host>, others: seq<Host>, name: string, i: nat, j: nat)
    requires MostSpecific(hosts, name, i) && MostSpecific(others, name, j) && others[j] in hosts
    ensures HostLe(hosts[i], others[j])
  {
    hide Extract, HostLe;
    var k :| 0 <= k < |hosts| && hosts[k] == others[j];
    assert NotAfter(hosts, i, k);
    NotAfterIff(hosts, i, k);
  }
}
