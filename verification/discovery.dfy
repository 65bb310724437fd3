/** The client's discovery of server mailboxes: the name filter, the
    newest-first sort, the availability test and the automatic choice. */
module Discovery {
  import opened Options
  import opened CStrings
  import opened Record
  import opened Naming

  /** The names the filter loop of `findServerFiles` keeps, in listing order. */
  function ServerFileNames(listing: seq<string>): (r: seq<string>)
    ensures forall f :: f in r <==> f in listing && IsServerFileName(f)
  {
    if listing == [] then []
    else
      var init := listing[..|listing| - 1];
      var last := listing[|listing| - 1];
      assert listing == init + [last];
      if IsServerFileName(last) then ServerFileNames(init) + [last] else ServerFileNames(init)
  }

  /** `std::string::operator<`: lexicographic order. */
  predicate LexLess(a: string, b: string) {
    if b == [] then false
    else if a == [] then true
    else if a[0] != b[0] then a[0] < b[0]
    else LexLess(a[1..], b[1..])
  }

  /** The comparator of the sort: by number, larger first, when both names
      have one; otherwise by name. On a mix of names with and without a
      number this is not a strict weak order. */
  predicate NewerFirst(a: string, b: string) {
    match (ClientNumber(a), ClientNumber(b))
    case (Some(x), Some(y)) => x > y
    case _ => LexLess(a, b)
  }

  /** `std::string`'s `<` is a strict total order: irreflexive, asymmetric,
      transitive, and any two different names are ordered one way. */
  lemma {:induction false} LexLessIsStrictTotal(a: string, b: string, c: string)
    ensures !LexLess(a, a)
    ensures LexLess(a, b) ==> !LexLess(b, a)
    ensures a != b ==> LexLess(a, b) || LexLess(b, a)
    ensures LexLess(a, b) && LexLess(b, c) ==> LexLess(a, c)
    decreases |a|
  {
    if a != [] && b != [] && c != [] {
      LexLessIsStrictTotal(a[1..], b[1..], c[1..]);
      if a[0] == b[0] && a != b {
        assert a == [a[0]] + a[1..] && b == [b[0]] + b[1..];
      }
    } else if a != [] && b != [] {
      LexLessIsStrictTotal(a[1..], b[1..], b[1..]);
      if a[0] == b[0] && a != b {
        assert a == [a[0]] + a[1..] && b == [b[0]] + b[1..];
      }
    } else if a != [] {
      LexLessIsStrictTotal(a[1..], a[1..], a[1..]);
    }
  }

  /** On names that mix a number with no number, the comparator runs in a
      circle. With `x`, `y`, `z` = '7', '5', '-': "ipc_server_7.bin" goes
      before "ipc_server_+5.bin" (7 > 5), which goes before "ipc_server_-.bin"
      ('+' < '-'), which goes before "ipc_server_7.bin" ('-' < '7'). So it is
      not a strict weak order. */
  lemma NewerFirstIsNotTransitive(x: char, y: char, z: char, a: string, b: string, c: string)
    requires IsDigit(x) && IsDigit(y) && DigitValue(y) < DigitValue(x)
    requires '+' < z < x && !IsDigit(z) && !IsSpace(z) && z != '.'
    requires a == PREFIX + ([x] + EXTENSION) && b == PREFIX + (['+', y] + EXTENSION) && c == PREFIX + ([z] + EXTENSION)
    ensures NewerFirst(a, b) && NewerFirst(b, c) && NewerFirst(c, a)
  {
    CycleNumbers(x, y, z);
    CycleNames(x, y, z);
  }

  /** The numbers the client reads out of the three names of the circle. */
  lemma CycleNumbers(x: char, y: char, z: char)
    requires IsDigit(x) && IsDigit(y) && !IsDigit(z) && !IsSpace(z) && z != '.'
    ensures ClientNumber(PREFIX + ([x] + EXTENSION)) == Some(DigitValue(x))
    ensures ClientNumber(PREFIX + (['+', y] + EXTENSION)) == Some(DigitValue(y))
    ensures ClientNumber(PREFIX + ([z] + EXTENSION)).None?
  {
    DigitName(x, [x] + EXTENSION);
    PlusDigitName(y, ['+', y] + EXTENSION);
    NoNumberName(z, [z] + EXTENSION);
  }

  /** How the two names of the circle that involve the unparsable one compare. */
  lemma CycleNames(x: char, y: char, z: char)
    requires '+' < z < x
    ensures LexLess(PREFIX + (['+', y] + EXTENSION), PREFIX + ([z] + EXTENSION))
    ensures LexLess(PREFIX + ([z] + EXTENSION), PREFIX + ([x] + EXTENSION))
  {
    var ra, rb, rc := [x] + EXTENSION, ['+', y] + EXTENSION, [z] + EXTENSION;
    assert LexLess(rb, rc) && LexLess(rc, ra);
    LexLessAfterPrefix(PREFIX, rb, rc);
    LexLessAfterPrefix(PREFIX, rc, ra);
  }

  /** A name whose number is one digit ... */
  lemma DigitName(c: char, rest: string)
    requires IsDigit(c) && rest == [c] + EXTENSION
    ensures ClientNumber(PREFIX + rest) == Some(DigitValue(c))
  {
    assert rest[..1] == [c] == "" + [c] && rest[1] == '.';
    NumberAfterPrefix(rest, 1);
    StoiOfDigit("", c);
  }

  /** ... or one digit after a '+'. */
  lemma PlusDigitName(c: char, rest: string)
    requires IsDigit(c) && rest == ['+', c] + EXTENSION
    ensures ClientNumber(PREFIX + rest) == Some(DigitValue(c))
  {
    assert rest[..2] == ['+', c] == "+" + [c] && rest[2] == '.';
    NumberAfterPrefix(rest, 2);
    StoiOfDigit("+", c);
  }

  /** A name with one character that is not a number before ".bin". */
  lemma NoNumberName(z: char, rest: string)
    requires !IsDigit(z) && !IsSpace(z) && z != '.'
    requires rest == [z] + EXTENSION
    ensures ClientNumber(PREFIX + rest) == None
  {
    NumberAfterPrefix(rest, 1);
    assert SkipSpaces(rest[..1]) == rest[..1];
  }

  /** The client's number of the prefix followed by `rest`, when the first
      '.' of `rest` is at `d`. */
  lemma NumberAfterPrefix(rest: string, d: nat)
    requires d < |rest| && rest[d] == '.' && '.' !in rest[..d]
    ensures ClientNumber(PREFIX + rest) == Stoi(rest[..d])
  {
    var f := PREFIX + rest;
    assert f[..|PREFIX|] == PREFIX && f[|PREFIX|..] == rest;
    FindFirst(rest, '.', d);
  }

  /** Names with a common prefix compare as what follows it. */
  lemma {:induction false} LexLessAfterPrefix(p: string, x: string, y: string)
    ensures LexLess(p + x, p + y) == LexLess(x, y)
    decreases |p|
  {
    if p != [] {
      assert (p + x)[1..] == p[1..] + x && (p + y)[1..] == p[1..] + y;
      LexLessAfterPrefix(p[1..], x, y);
    } else {
      assert p + x == x && p + y == y;
    }
  }

  /** Insertion of one name by a comparator `before`. */
  function InsertBy(x: string, s: seq<string>, before: (string, string) -> bool): (r: seq<string>)
    ensures multiset(r) == multiset(s) + multiset{x}
    ensures forall f :: f in r <==> f == x || f in s
  {
    if s == [] then [x]
    else
      assert s == [s[0]] + s[1..];
      if before(x, s[0]) then [x] + s
      else [s[0]] + InsertBy(x, s[1..], before)
  }

  function SortBy(s: seq<string>, before: (string, string) -> bool): (r: seq<string>)
    ensures multiset(r) == multiset(s)
  {
    if s == [] then []
    else
      assert s == [s[0]] + s[1..];
      InsertBy(s[0], SortBy(s[1..], before), before)
  }

  /** The sort step of `findServerFiles`. `std::sort` leaves the order of equal
      numbers (and of names without one) to the library; this is one
      admissible order, and only what holds of every admissible order is
      stated about it. */
  function SortNewestFirst(s: seq<string>): (r: seq<string>)
    ensures multiset(r) == multiset(s)
  {
    SortBy(s, NewerFirst)
  }

  // Orders by a key, stated for any key so that the lemmas need not look
  // inside the parsing of names.

  predicate Keyed(s: seq<string>, key: string -> Option<int>) {
    forall f :: f in s ==> key(f).Some?
  }

  /** Every element before another has a key at least as large. */
  ghost predicate DescendingBy(s: seq<string>, key: string -> Option<int>)
    requires Keyed(s, key)
  {
    forall i, j :: 0 <= i < j < |s| ==> key(s[i]).value >= key(s[j]).value
  }

  /** On keyed elements the comparator means "larger key". */
  ghost predicate AgreesWith(before: (string, string) -> bool, key: string -> Option<int>) {
    forall a, b :: key(a).Some? && key(b).Some? ==> (before(a, b) <==> key(a).value > key(b).value)
  }

  /** An element whose key is at least that of every element of a descending
      sequence can go in front of it. */
  lemma PrependKeepsOrder(a: string, t: seq<string>, key: string -> Option<int>)
    requires key(a).Some? && Keyed(t, key) && DescendingBy(t, key)
    requires forall f :: f in t ==> key(a).value >= key(f).value
    ensures Keyed([a] + t, key) && DescendingBy([a] + t, key)
  {
    var r := [a] + t;
    forall f | f in r ensures key(f).Some? {
      if f != a { assert f in t; }
    }
    forall i, j | 0 <= i < j < |r|
      ensures key(r[i]).value >= key(r[j]).value
    {
      assert r[j] == t[j - 1] && r[j] in t;
      if i > 0 { assert r[i] == t[i - 1]; }
    }
  }

  lemma {:induction false} InsertKeepsOrder(x: string, s: seq<string>, before: (string, string) -> bool, key: string -> Option<int>)
    requires AgreesWith(before, key)
    requires key(x).Some? && Keyed(s, key) && DescendingBy(s, key)
    ensures Keyed(InsertBy(x, s, before), key) && DescendingBy(InsertBy(x, s, before), key)
    decreases |s|
  {
    if s == [] {
    } else if before(x, s[0]) {
      forall f | f in s ensures key(x).value >= key(f).value {
        var m :| 0 <= m < |s| && s[m] == f;
        assert m == 0 || key(s[0]).value >= key(s[m]).value;
      }
      PrependKeepsOrder(x, s, key);
    } else {
      var tail := s[1..];
      assert Keyed(tail, key) && DescendingBy(tail, key) by {
        forall f | f in tail ensures f in s { }
        forall i, j | 0 <= i < j < |tail| ensures key(tail[i]).value >= key(tail[j]).value {
          assert tail[i] == s[i + 1] && tail[j] == s[j + 1];
        }
      }
      InsertKeepsOrder(x, tail, before, key);
      forall f | f in InsertBy(x, tail, before) ensures key(s[0]).value >= key(f).value {
        if f != x {
          var m :| 0 <= m < |tail| && tail[m] == f;
          assert s[m + 1] == f;
        }
      }
      PrependKeepsOrder(s[0], InsertBy(x, tail, before), key);
    }
  }

  lemma {:induction false} SortKeepsOrder(s: seq<string>, before: (string, string) -> bool, key: string -> Option<int>)
    requires AgreesWith(before, key) && Keyed(s, key)
    ensures Keyed(SortBy(s, before), key) && DescendingBy(SortBy(s, before), key)
  {
    if s != [] {
      assert Keyed(s[1..], key) by {
        forall f | f in s[1..] ensures key(f).Some? { assert f in s; }
      }
      SortKeepsOrder(s[1..], before, key);
      InsertKeepsOrder(s[0], SortBy(s[1..], before), before, key);
    }
  }

  /** In a descending sequence, the first element with some property has the
      largest key among all elements with it. */
  lemma FirstFoundIsLargest(s: seq<string>, k: nat, found: string -> bool, key: string -> Option<int>)
    requires Keyed(s, key) && DescendingBy(s, key)
    requires k < |s| && found(s[k]) && forall j :: 0 <= j < k ==> !found(s[j])
    ensures forall f :: f in s && found(f) ==> key(f).value <= key(s[k]).value
  {
    forall f | f in s && found(f) ensures key(f).value <= key(s[k]).value {
      var m :| 0 <= m < |s| && s[m] == f;
      assert k <= m;
    }
  }

  predicate AllNumbered(s: seq<string>) {
    Keyed(s, ClientNumber)
  }

  /** Every name before another has a number at least as large. */
  ghost predicate NewestFirst(s: seq<string>)
    requires AllNumbered(s)
  {
    DescendingBy(s, ClientNumber)
  }

  lemma NewerFirstAgrees()
    ensures AgreesWith(NewerFirst, ClientNumber)
  {
  }

  /** On names that all carry a number, the sort orders them newest first. */
  lemma SortNewestFirstOrders(s: seq<string>)
    requires AllNumbered(s)
    ensures AllNumbered(SortNewestFirst(s)) && NewestFirst(SortNewestFirst(s))
  {
    NewerFirstAgrees();
    SortKeepsOrder(s, NewerFirst, ClientNumber);
  }

  /** `findServerFiles`: the names of the listing that start with "ipc_server_"
      and contain ".bin", sorted by the comparator above. */
  method FindServerFiles(listing: seq<string>) returns (files: seq<string>)
    ensures files == SortNewestFirst(ServerFileNames(listing))
    ensures multiset(files) == multiset(ServerFileNames(listing))
    ensures forall f :: f in files <==> f in listing && IsServerFileName(f)
    ensures AllNumbered(files) ==> NewestFirst(files)
  {
    var serverFiles: seq<string> := [];
    for i := 0 to |listing|
      invariant serverFiles == ServerFileNames(listing[..i])
    {
      var filename := listing[i];
      assert listing[..i + 1][..i] == listing[..i];
      if IsServerFileName(filename) {
        serverFiles := serverFiles + [filename];
      }
    }
    assert listing[..|listing|] == listing;
    files := SortNewestFirst(serverFiles);
    assert forall f :: f in files <==> f in multiset(serverFiles);
    if AllNumbered(files) {
      assert AllNumbered(serverFiles);
      SortNewestFirstOrders(serverFiles);
    }
  }

  /** The state of one candidate file as the probe finds it: whether `open`
      succeeded, and what reading the record gives. */
  datatype FileProbe = FileProbe(openOk: bool, read: ReadOutcome)

  /** `checkServerAvailability`: the file opens, its record reads, and the
      status is FREE or RESPONSE. An empty file reads as the all-zero FREE
      record and so counts as available. */
  function CheckServerAvailability(probe: FileProbe): (available: bool)
    ensures available <==>
      && probe.openOk && probe.read.seekOk
      && (|| probe.read.count == 0
          || (probe.read.count == RECORD_SIZE && (probe.read.stored.status == FREE || probe.read.stored.status == RESPONSE)))
  {
    probe.openOk && match ReadMessage(probe.read) {
      case Some(msg) => msg.status == FREE || msg.status == RESPONSE
      case None => false
    }
  }

  /** The probing loop of `autoConnectToServer`: the candidates that are
      available, in candidate order. `firstAt` is where the first of them sits. */
  method CollectAvailable(serverFiles: seq<string>, disk: string -> FileProbe)
    returns (availableServers: seq<string>, ghost firstAt: nat)
    ensures forall f :: f in availableServers <==> f in serverFiles && CheckServerAvailability(disk(f))
    ensures availableServers != [] ==>
      && firstAt < |serverFiles| && serverFiles[firstAt] == availableServers[0]
      && forall j :: 0 <= j < firstAt ==> !CheckServerAvailability(disk(serverFiles[j]))
  {
    availableServers := [];
    firstAt := 0;
    for i := 0 to |serverFiles|
      invariant forall f :: f in availableServers <==> f in serverFiles[..i] && CheckServerAvailability(disk(f))
      invariant availableServers != [] ==>
        && firstAt < i && serverFiles[firstAt] == availableServers[0]
        && forall j :: 0 <= j < firstAt ==> !CheckServerAvailability(disk(serverFiles[j]))
      invariant availableServers == [] ==> forall j :: 0 <= j < i ==> !CheckServerAvailability(disk(serverFiles[j]))
    {
      var file := serverFiles[i];
      assert serverFiles[..i + 1] == serverFiles[..i] + [file];
      if CheckServerAvailability(disk(file)) {
        if availableServers == [] {
          firstAt := i;
        }
        availableServers := availableServers + [file];
      }
    }
    assert serverFiles[..|serverFiles|] == serverFiles;
  }

  /** `autoConnectToServer`: "" when no candidate is available, otherwise the
      first available name in sorted order; when every candidate has a number
      that is the highest-numbered available server. `disk` gives the state
      of each file at the time it is probed. */
  method AutoConnect(listing: seq<string>, disk: string -> FileProbe) returns (chosen: string)
    ensures chosen == "" <==> forall f :: f in listing && IsServerFileName(f) ==> !CheckServerAvailability(disk(f))
    ensures chosen != "" ==> chosen in listing && IsServerFileName(chosen) && CheckServerAvailability(disk(chosen))
    ensures chosen != "" ==>
      var order := SortNewestFirst(ServerFileNames(listing));
      exists k :: 0 <= k < |order| && order[k] == chosen && forall j :: 0 <= j < k ==> !CheckServerAvailability(disk(order[j]))
    ensures chosen != "" && AllNumbered(ServerFileNames(listing)) ==>
      forall f :: f in listing && IsServerFileName(f) && CheckServerAvailability(disk(f)) ==>
        ClientNumber(f).Some? && ClientNumber(f).value <= ClientNumber(chosen).value
  {
    var serverFiles := FindServerFiles(listing);
    var availableServers, firstAt := CollectAvailable(serverFiles, disk);
    if availableServers == [] {
      return "";
    }
    // One server or several: the first is the newest, as the list is sorted.
    chosen := availableServers[0];
    assert chosen in availableServers;
    assert chosen != "" by { assert |chosen| >= |PREFIX|; }
    if AllNumbered(ServerFileNames(listing)) {
      assert AllNumbered(serverFiles);
      var available := f => CheckServerAvailability(disk(f));
      FirstFoundIsLargest(serverFiles, firstAt, available, ClientNumber);
      forall f | f in listing && IsServerFileName(f) && CheckServerAvailability(disk(f))
        ensures ClientNumber(f).Some? && ClientNumber(f).value <= ClientNumber(chosen).value
      {
        assert f in serverFiles && available(f);
      }
    }
  }
}
