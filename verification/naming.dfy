/** The naming convention of mailbox files, `ipc_server_<n>.bin`, and how each
    program reads the instance number back out of a name. */
module Naming {
  import opened Options
  import opened CStrings

  const PREFIX: string := "ipc_server_"
  const EXTENSION: string := ".bin"

  predicate StartsWith(s: string, p: string) {
    |p| <= |s| && s[..|p|] == p
  }

  /** `s.find(pat) != npos`. */
  predicate Contains(s: string, pat: string)
    decreases |s|
  {
    |pat| <= |s| && (s[..|pat|] == pat || Contains(s[1..], pat))
  }

  predicate OccursAt(s: string, pat: string, i: int) {
    0 <= i <= |s| - |pat| && s[i..i + |pat|] == pat
  }

  /** `find` succeeds exactly when the pattern occurs at some index. */
  lemma {:induction false} ContainsIff(s: string, pat: string)
    ensures Contains(s, pat) <==> exists i :: OccursAt(s, pat, i)
    decreases |s|
  {
    if |pat| <= |s| {
      if s[..|pat|] == pat {
        assert OccursAt(s, pat, 0);
      } else {
        ContainsIff(s[1..], pat);
        if exists i :: OccursAt(s[1..], pat, i) {
          var i :| OccursAt(s[1..], pat, i);
          assert s[i + 1..i + 1 + |pat|] == s[1..][i..i + |pat|];
          assert OccursAt(s, pat, i + 1);
        }
        if exists i :: OccursAt(s, pat, i) {
          var i :| OccursAt(s, pat, i);
          assert i != 0;
          assert s[1..][i - 1..i - 1 + |pat|] == s[i..i + |pat|];
          assert OccursAt(s[1..], pat, i - 1);
        }
      }
    }
  }

  lemma {:induction false} ContainsAtEnd(a: string, pat: string)
    ensures Contains(a + pat, pat)
    decreases |a|
  {
    if a != [] {
      assert (a + pat)[1..] == a[1..] + pat;
      ContainsAtEnd(a[1..], pat);
    } else {
      assert (a + pat)[..|pat|] == pat;
    }
  }

  /** `s.find(c)`: the index of the first `c`, if any. */
  function Find(s: string, c: char): (r: Option<nat>)
    ensures r.None? ==> c !in s
    ensures r.Some? ==> r.value < |s| && s[r.value] == c && c !in s[..r.value]
  {
    if s == [] then None
    else if s[0] == c then Some(0)
    else match Find(s[1..], c)
      case None => None
      case Some(k) =>
        assert s[..k + 1] == [s[0]] + s[1..][..k];
        Some(k + 1)
  }

  /** `find` returns the index of a character when none comes before it. */
  lemma {:induction false} FindFirst(s: string, c: char, d: nat)
    requires d < |s| && s[d] == c && c !in s[..d]
    ensures Find(s, c) == Some(d)
  {
    if d > 0 {
      assert s[0] == s[..d][0];
      assert s[1..][..d - 1] == s[..d][1..];
      FindFirst(s[1..], c, d - 1);
    }
  }

  /** The file name a server with instance number `n` creates: the prefix,
      the decimal number and the extension. */
  function FileNameFor(n: int): (f: string)
    ensures StartsWith(f, PREFIX) && |f| > |PREFIX| + |EXTENSION|
    ensures f[|f| - |EXTENSION|..] == EXTENSION
    ensures forall i :: |PREFIX| <= i < |f| - |EXTENSION| ==> IsDigit(f[i]) || (i == |PREFIX| && f[i] == '-')
  {
    var digits := IntToString(n);
    var f := PREFIX + digits + EXTENSION;
    assert f[..|PREFIX|] == PREFIX;
    assert f[|f| - |EXTENSION|..] == EXTENSION;
    assert forall i :: |PREFIX| <= i < |f| - |EXTENSION| ==> f[i] == digits[i - |PREFIX|];
    f
  }

  /** `s.substr(0, s.find('.'))`: the text before the first '.', or all of it
      when there is none. */
  function UpToDot(s: string): (t: string)
    ensures t <= s && '.' !in t
    ensures |t| < |s| ==> s[|t|] == '.'
  {
    match Find(s, '.')
    case None => s
    case Some(d) => s[..d]
  }

  /** The client's filter: the name starts with the prefix and contains ".bin"
      anywhere. */
  predicate IsServerFileName(f: string) {
    StartsWith(f, PREFIX) && Contains(f, EXTENSION)
  }

  /** The client's number of a name: the text after the prefix up to the first
      '.' (or to the end when there is none), through `std::stoi`. The client
      only asks this of names that carry the prefix; any other name has none. */
  function ClientNumber(f: string): Option<int> {
    if !StartsWith(f, PREFIX) then None
    else
      var rest := f[|PREFIX|..];
      match Find(rest, '.')
      case None => Stoi(rest)
      case Some(d) => Stoi(rest[..d])
  }

  /** The server's number of a name: like the client's, except that a name
      with no '.' after the prefix is skipped. */
  function ServerNumber(f: string): Option<int> {
    if !StartsWith(f, PREFIX) then None
    else
      var rest := f[|PREFIX|..];
      match Find(rest, '.')
      case None => None
      case Some(d) => Stoi(rest[..d])
  }

  /** What each program reads out of a name: `std::stoi` of the text between
      the prefix and the first '.'; the server also needs a '.' to be there. */
  lemma NumbersOfName(f: string)
    ensures ClientNumber(f) == (if StartsWith(f, PREFIX) then Stoi(UpToDot(f[|PREFIX|..])) else None)
    ensures ServerNumber(f) == (if StartsWith(f, PREFIX) && '.' in f[|PREFIX|..] then Stoi(UpToDot(f[|PREFIX|..])) else None)
  {
  }

  /** On every name the client keeps, the two programs read the same number. */
  lemma ClientAndServerAgree(f: string)
    requires IsServerFileName(f)
    ensures ClientNumber(f) == ServerNumber(f)
  {
    var rest := f[|PREFIX|..];
    ContainsDot(f);
    assert '.' in rest;
  }

  /** A name that contains ".bin" after the prefix has a '.' after the prefix. */
  lemma ContainsDot(f: string)
    requires StartsWith(f, PREFIX)
    requires Contains(f, EXTENSION)
    ensures '.' in f[|PREFIX|..]
  {
    var i := ExtensionIndex(f);
    assert f[i] == '.';
    assert f[|PREFIX|..][i - |PREFIX|] == '.';
  }

  lemma {:induction false} ExtensionIndex(f: string) returns (i: nat)
    requires Contains(f, EXTENSION)
    ensures i + |EXTENSION| <= |f| && f[i..i + |EXTENSION|] == EXTENSION
    decreases |f|
  {
    if f[..|EXTENSION|] == EXTENSION {
      i := 0;
    } else {
      var j := ExtensionIndex(f[1..]);
      assert f[1..][j..j + |EXTENSION|] == f[j + 1..j + 1 + |EXTENSION|];
      i := j + 1;
    }
  }

  /** The name a server builds for instance `n` passes the client's filter, and
      both programs read `n` back out of it. */
  lemma FileNameRoundTrip(n: int)
    ensures IsServerFileName(FileNameFor(n))
    ensures ServerNumber(FileNameFor(n)) == Some(n)
    ensures ClientNumber(FileNameFor(n)) == Some(n)
  {
    var digits := IntToString(n);
    var f := FileNameFor(n);
    assert f[..|PREFIX|] == PREFIX;
    assert f == (PREFIX + digits) + EXTENSION;
    ContainsAtEnd(PREFIX + digits, EXTENSION);
    var rest := f[|PREFIX|..];
    assert rest == digits + EXTENSION;
    assert '.' !in digits;
    assert rest[|digits|] == '.';
    assert Find(rest, '.') == Some(|digits|);
    assert rest[..|digits|] == digits;
    StoiOfIntToString(n);
  }
}
