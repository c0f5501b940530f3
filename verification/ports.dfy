/** `getPorts`: the ports the host listens on for every interface, read out
    of the output of `lsof -iTCP -sTCP:LISTEN`, each once, ordered by their
    `strconv.Atoi` value. */
module Ports {
  import opened Options
  import opened Strings
  import opened Strconv
  import opened Commands

  const FetchErrorPrefix := "Error fetching ports: "

  /** A line the parser can read without indexing past the end: when it
      contains `*` and has more than eight fields, its ninth field holds a
      `:` (Go panics on such a line otherwise). */
  predicate LineParses(line: string)
  {
    Contains(line, "*") && |Fields(line)| > 8 ==> ':' in Fields(line)[8]
  }

  predicate AllLinesParse(lines: seq<string>)
  {
    forall i :: 0 <= i < |lines| ==> LineParses(lines[i])
  }

  /** The port a line contributes, if any: for a line listening on all
      interfaces (it contains `*`) with more than eight fields, the second
      `:`-separated piece of the ninth field. */
  function LinePort(line: string): (port: Option<string>)
    requires LineParses(line)
    ensures port.Some? <==> '*' in line && |Fields(line)| > 8
    ensures port.Some? ==> ':' !in port.value
  {
    ContainsChar(line, '*');
    if Contains(line, "*") then
      var parts := Fields(line);
      if |parts| > 8 then Some(Split(parts[8], ':')[1]) else None
    else None
  }

  /** The text a wildcard line contributes is what stands between the first
      and the second `:` of its ninth field, as in `*:8080` or `*:http`. */
  lemma LinePortIsSecondPiece(line: string, head: string, port: string, tail: string)
    requires '*' in line && |Fields(line)| > 8
    requires Fields(line)[8] == head + [':'] + port + tail
    requires ':' !in head && ':' !in port
    requires tail == [] || tail[0] == ':'
    ensures LineParses(line) && LinePort(line) == Some(port)
  {
    ContainsChar(line, '*');
    assert [':'] + port + tail == [':'] + (port + tail);
    assert (head + [':'] + port + tail)[|head|] == ':';
    SplitSecondPiece(head, port, tail, ':');
  }

  /** The set of ports the lines contribute: the keys of the map the
      source's first loop fills. */
  function ListeningPorts(lines: seq<string>): (ports: set<string>)
    requires AllLinesParse(lines)
    ensures forall p :: p in ports <==> exists i :: 0 <= i < |lines| && LinePort(lines[i]) == Some(p)
    decreases |lines|
  {
    if lines == [] then {}
    else
      var init := lines[..|lines| - 1];
      assert forall i :: 0 <= i < |init| ==> init[i] == lines[i];
      var rest := ListeningPorts(init);
      match LinePort(lines[|lines| - 1])
      case Some(p) => rest + {p}
      case None => rest
  }

  predicate Distinct(s: seq<string>)
  {
    forall i, j :: 0 <= i < j < |s| ==> s[i] != s[j]
  }

  /** The order `sort.Slice` establishes with the comparator
      `Atoi(a) < Atoi(b)`: the values never decrease. It says nothing about
      the order of strings with equal values, such as two service names. */
  predicate SortedByPort(s: seq<string>)
  {
    forall i, j :: 0 <= i < j < |s| ==> Atoi(s[i]) <= Atoi(s[j])
  }

  /** `ports` lists each element of `found` exactly once, and nothing else,
      in ascending `Atoi` order. */
  ghost predicate IsPortListing(ports: seq<string>, found: set<string>)
  {
    && Distinct(ports)
    && (forall p :: p in ports <==> p in found)
    && SortedByPort(ports)
  }

  function ElementSet(s: seq<string>): set<string>
  {
    set x | x in s
  }

  lemma {:induction false} DistinctCardinality(s: seq<string>)
    requires Distinct(s)
    ensures |ElementSet(s)| == |s|
  {
    if s != [] {
      var init := s[..|s| - 1];
      var last := s[|s| - 1];
      assert ElementSet(s) == ElementSet(init) + {last};
      assert last !in ElementSet(init);
      DistinctCardinality(init);
    }
  }

  /** A listing is exactly as long as the set of ports it lists. */
  lemma PortListingSize(ports: seq<string>, found: set<string>)
    requires IsPortListing(ports, found)
    ensures |ports| == |found|
  {
    assert ElementSet(ports) == found;
    DistinctCardinality(ports);
  }

  /** When every port is a plain decimal number, as `lsof -P` would print
      them, the listing is strictly increasing. */
  lemma NumericPortsIncrease(ports: seq<string>, found: set<string>)
    requires IsPortListing(ports, found)
    requires forall p :: p in found ==> IsCanonicalDecimal(p) && DecimalValue(p) <= MaxInt64
    ensures forall i, j :: 0 <= i < j < |ports| ==> Atoi(ports[i]) < Atoi(ports[j])
  {
    forall i, j | 0 <= i < j < |ports|
      ensures Atoi(ports[i]) < Atoi(ports[j])
    {
      assert ports[i] in found && ports[j] in found;
      if Atoi(ports[i]) == Atoi(ports[j]) {
        AtoiInjective(ports[i], ports[j]);
      }
    }
  }

  lemma {:induction false} DistinctCounts(s: seq<string>, x: string)
    requires Distinct(s)
    ensures multiset(s)[x] <= 1
  {
    if s != [] {
      var init := s[..|s| - 1];
      assert s == init + [s[|s| - 1]];
      DistinctCounts(init, x);
      if s[|s| - 1] == x {
        assert x !in init;
      }
    }
  }

  lemma TwoCopies(s: seq<string>, i: nat, j: nat)
    requires i < j < |s|
    ensures s[i] == s[j] ==> multiset(s)[s[i]] >= 2
  {
    assert s == s[..i] + [s[i]] + s[i + 1..j] + [s[j]] + s[j + 1..];
  }

  /** Reordering keeps a sequence free of repetitions. */
  lemma DistinctPermutation(a: seq<string>, b: seq<string>)
    requires Distinct(a) && multiset(a) == multiset(b)
    ensures Distinct(b)
  {
    forall i, j | 0 <= i < j < |b|
      ensures b[i] != b[j]
    {
      TwoCopies(b, i, j);
      DistinctCounts(a, b[i]);
    }
  }

  /** Exchanges two neighbouring elements. */
  method SwapDown(a: array<string>, j: int)
    requires 0 < j < a.Length
    modifies a
    ensures a[..] == old(a[..])[j - 1 := old(a[j])][j := old(a[j - 1])]
    ensures multiset(a[..]) == old(multiset(a[..]))
  {
    a[j - 1], a[j] := a[j], a[j - 1];
  }

  /** The state of one insertion: `s[..i + 1]` is sorted except around
      position `j`, where the element being inserted sits, and that element
      is no larger than anything after it. */
  predicate Inserting(s: seq<string>, i: int, j: int)
    requires 0 <= j <= i < |s|
  {
    && (forall m, n :: 0 <= m < n <= i && m != j && n != j ==> Atoi(s[m]) <= Atoi(s[n]))
    && (forall n :: j < n <= i ==> Atoi(s[j]) <= Atoi(s[n]))
  }

  /** Exchanging the inserted element with a larger left neighbour moves the
      insertion one place to the left. */
  lemma InsertingSwap(s: seq<string>, i: int, j: int)
    requires 0 < j <= i < |s| && Inserting(s, i, j)
    requires Atoi(s[j - 1]) > Atoi(s[j])
    ensures Inserting(s[j - 1 := s[j]][j := s[j - 1]], i, j - 1)
  {
  }

  /** The insertion is over when the left neighbour is no larger. */
  lemma InsertingDone(s: seq<string>, i: int, j: int)
    requires 0 <= j <= i < |s| && Inserting(s, i, j)
    requires j == 0 || Atoi(s[j - 1]) <= Atoi(s[j])
    ensures SortedByPort(s[..i + 1])
  {
  }

  /** Moves `a[i]` down into the sorted prefix `a[..i]`. */
  method InsertIntoPrefix(a: array<string>, i: int)
    requires 0 <= i < a.Length
    requires SortedByPort(a[..i])
    modifies a
    ensures SortedByPort(a[..i + 1])
    ensures multiset(a[..]) == old(multiset(a[..]))
    ensures a[i + 1..] == old(a[i + 1..])
  {
    var j := i;
    assert Inserting(a[..], i, j) by {
      assert forall m :: 0 <= m < i ==> a[..i][m] == a[m];
    }
    while j > 0 && Atoi(a[j - 1]) > Atoi(a[j])
      invariant 0 <= j <= i
      invariant multiset(a[..]) == old(multiset(a[..]))
      invariant Inserting(a[..], i, j)
      invariant a[i + 1..] == old(a[i + 1..])
    {
      InsertingSwap(a[..], i, j);
      SwapDown(a, j);
      j := j - 1;
    }
    InsertingDone(a[..], i, j);
  }

  /** `sort.Slice` with the comparator `Atoi(a) < Atoi(b)`, written as an
      insertion sort: any sort meets the same contract. */
  method SortByPort(a: array<string>)
    modifies a
    ensures SortedByPort(a[..])
    ensures multiset(a[..]) == old(multiset(a[..]))
  {
    var i := 0;
    while i < a.Length
      invariant 0 <= i <= a.Length
      invariant SortedByPort(a[..i])
      invariant multiset(a[..]) == old(multiset(a[..]))
    {
      InsertIntoPrefix(a, i);
      i := i + 1;
    }
    assert a[..a.Length] == a[..];
  }

  /** The source's first loop: the set of keys of the map it fills. */
  method CollectPorts(lines: seq<string>) returns (found: set<string>)
    requires AllLinesParse(lines)
    ensures found == ListeningPorts(lines)
  {
    found := {};
    for i := 0 to |lines|
      invariant found == ListeningPorts(lines[..i])
    {
      assert lines[..i + 1][..i] == lines[..i];
      match LinePort(lines[i]) {
        case Some(p) => found := found + {p};
        case None =>
      }
    }
    assert lines[..|lines|] == lines;
  }

  /** The source's second loop: the keys of the map, appended to a slice in
      whatever order Go visits them. */
  method KeysOf(found: set<string>) returns (slice: seq<string>)
    ensures Distinct(slice)
    ensures forall p :: p in slice <==> p in found
  {
    slice := [];
    var rest := found;
    while rest != {}
      invariant Distinct(slice)
      invariant forall p :: p in slice ==> p !in rest
      invariant forall p :: p in found <==> p in slice || p in rest
      decreases |rest|
    {
      var p :| p in rest;
      slice := slice + [p];
      rest := rest - {p};
    }
  }

  /** `getPorts`. When the listing command fails the list is the one error
      message; otherwise it is every port the output's lines contribute,
      each once, in ascending `Atoi` order. */
  method GetPorts(scan: CommandResult) returns (ports: seq<string>)
    requires scan.Succeeded? ==> AllLinesParse(Split(scan.stdout, '\n'))
    ensures scan.Failed? ==> ports == [FetchErrorPrefix + scan.err]
    ensures scan.Succeeded? ==> IsPortListing(ports, ListeningPorts(Split(scan.stdout, '\n')))
  {
    if scan.Failed? {
      return [FetchErrorPrefix + scan.err];
    }
    var found := CollectPorts(Split(scan.stdout, '\n'));
    var slice := KeysOf(found);
    var a := new string[|slice|](k requires 0 <= k < |slice| => slice[k]);
    assert a[..] == slice;
    SortByPort(a);
    ports := a[..];
    DistinctPermutation(slice, ports);
    assert forall p :: p in ports <==> p in multiset(slice);
  }
}
