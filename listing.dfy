/** listFiles: the directory's regular files by name, in ascending order,
    or the error that aborts the run before anything is renamed. */
module Listing {
  import opened Options

  /** One entry of File.listFiles: its name and whether it is a directory. */
  datatype DirEntry = DirEntry(name: string, isDirectory: bool)

  datatype ListError =
    | InvalidDirectory   // listFiles returned null
    | EmptyDirectory     // listFiles returned no entry at all

  // ---------------------------------------------------------------------
  // String order

  /** a.compareTo(b) <= 0: the first position where the two differ decides;
      when there is none, the shorter one (a prefix of the other) comes first. */
  predicate LexLe(a: string, b: string)
    ensures |a| <= |b| && a == b[..|a|] ==> LexLe(a, b)
    ensures |b| < |a| && b == a[..|b|] ==> !LexLe(a, b)
  {
    |a| == 0 || (|b| > 0 && (a[0] < b[0] || (a[0] == b[0] && LexLe(a[1..], b[1..]))))
  }

  /** Past a common prefix, the first differing character decides the order. */
  lemma {:induction false} LexLeFirstDifference(a: string, b: string, k: nat)
    requires k < |a| && k < |b| && a[..k] == b[..k] && a[k] != b[k]
    ensures LexLe(a, b) <==> a[k] < b[k]
  {
    if k > 0 {
      assert a[0] == a[..k][0] == b[..k][0] == b[0];
      assert a[1..][..k - 1] == a[1..k] == b[1..k] == b[1..][..k - 1];
      LexLeFirstDifference(a[1..], b[1..], k - 1);
    }
  }

  lemma {:induction false} LexLeTotal(a: string, b: string)
    ensures LexLe(a, b) || LexLe(b, a)
  {
    if |a| > 0 && |b| > 0 && a[0] == b[0] {
      LexLeTotal(a[1..], b[1..]);
    }
  }

  lemma {:induction false} LexLeReflexive(a: string)
    ensures LexLe(a, a)
  {
    if |a| > 0 {
      LexLeReflexive(a[1..]);
    }
  }

  lemma {:induction false} LexLeTransitive(a: string, b: string, c: string)
    requires LexLe(a, b) && LexLe(b, c)
    ensures LexLe(a, c)
  {
    if |a| > 0 && |b| > 0 && |c| > 0 && a[0] == b[0] && b[0] == c[0] {
      LexLeTransitive(a[1..], b[1..], c[1..]);
    }
  }

  lemma {:induction false} LexLeAntisymmetric(a: string, b: string)
    requires LexLe(a, b) && LexLe(b, a)
    ensures a == b
  {
    if |a| > 0 {
      LexLeAntisymmetric(a[1..], b[1..]);
      assert a == [a[0]] + a[1..];
      assert b == [b[0]] + b[1..];
    }
  }

  predicate Ascending(s: seq<string>) {
    forall i, j :: 0 <= i < j < |s| ==> LexLe(s[i], s[j])
  }

  // ---------------------------------------------------------------------
  // Sorting

  lemma InsertFront(x: string, s: seq<string>)
    requires Ascending(s) && |s| > 0 && LexLe(x, s[0])
    ensures Ascending([x] + s)
  {
    forall j | 0 <= j < |s|
      ensures LexLe(x, s[j])
    {
      if j > 0 {
        LexLeTransitive(x, s[0], s[j]);
      }
    }
  }

  lemma InsertBehind(h: string, t: seq<string>, x: string, r: seq<string>)
    requires Ascending([h] + t) && LexLe(h, x)
    requires Ascending(r) && multiset(r) == multiset(t) + multiset{x}
    ensures Ascending([h] + r)
  {
    forall j | 0 <= j < |r|
      ensures LexLe(h, r[j])
    {
      assert r[j] in multiset(r);
      if r[j] != x {
        assert r[j] in multiset(t);
        var k :| 0 <= k < |t| && t[k] == r[j];
        assert ([h] + t)[0] == h && ([h] + t)[k + 1] == t[k];
        assert LexLe(([h] + t)[0], ([h] + t)[k + 1]);
      }
    }
  }

  /** One step of insertion sort. */
  function Insert(x: string, s: seq<string>): (r: seq<string>)
    requires Ascending(s)
    ensures Ascending(r) && multiset(r) == multiset(s) + multiset{x}
  {
    if |s| == 0 then [x]
    else if LexLe(x, s[0]) then
      InsertFront(x, s);
      [x] + s
    else
      var r := Insert(x, s[1..]);
      LexLeTotal(x, s[0]);
      assert s == [s[0]] + s[1..];
      InsertBehind(s[0], s[1..], x, r);
      [s[0]] + r
  }

  /** Stream.sorted on names: ascending, and a permutation of its input. */
  function Sort(s: seq<string>): (r: seq<string>)
    ensures Ascending(r) && multiset(r) == multiset(s)
  {
    if |s| == 0 then []
    else
      assert s == [s[0]] + s[1..];
      Insert(s[0], Sort(s[1..]))
  }

  /** The first name of an ascending sequence precedes each of its names. */
  lemma HeadLeast(a: seq<string>, x: string)
    requires Ascending(a) && x in a
    ensures LexLe(a[0], x)
  {
    var i :| 0 <= i < |a| && a[i] == x;
    if i == 0 {
      LexLeReflexive(x);
    }
  }

  lemma SameTails(a: seq<string>, b: seq<string>)
    requires |a| > 0 && |b| > 0 && a[0] == b[0] && multiset(a) == multiset(b)
    ensures multiset(a[1..]) == multiset(b[1..])
  {
    assert a == [a[0]] + a[1..] && b == [b[0]] + b[1..];
    assert multiset(a[1..]) == multiset(a) - multiset{a[0]};
    assert multiset(b[1..]) == multiset(b) - multiset{b[0]};
  }

  /** The sorted order is determined by the names alone: two ascending
      arrangements of the same names are the same sequence. */
  lemma {:induction false} SortUnique(a: seq<string>, b: seq<string>)
    requires Ascending(a) && Ascending(b) && multiset(a) == multiset(b)
    ensures a == b
    decreases |a|
  {
    assert |a| == |multiset(a)| == |multiset(b)| == |b|;
    if |a| > 0 {
      assert a[0] in multiset(b) && b[0] in multiset(a);
      HeadLeast(b, a[0]);
      HeadLeast(a, b[0]);
      LexLeAntisymmetric(a[0], b[0]);
      SameTails(a, b);
      SortUnique(a[1..], b[1..]);
      assert a == [a[0]] + a[1..] && b == [b[0]] + b[1..];
    }
  }

  // ---------------------------------------------------------------------
  // The listing

  /** The names of the entries that are not directories, in listing order. */
  function RegularFileNames(entries: seq<DirEntry>): (r: seq<string>)
    ensures forall name :: name in r <==> DirEntry(name, false) in entries
  {
    if |entries| == 0 then []
    else
      var rest := RegularFileNames(entries[1..]);
      assert entries == [entries[0]] + entries[1..];
      (if entries[0].isDirectory then [] else [entries[0].name]) + rest
  }

  /** listFiles (listing None stands for File.listFiles returning null). */
  function ListFiles(listing: Option<seq<DirEntry>>): (r: Result<seq<string>, ListError>)
    ensures r == Err(InvalidDirectory) <==> listing.None?
    ensures r == Err(EmptyDirectory) <==> listing.Some? && |listing.value| == 0
    ensures r.Ok? ==> Ascending(r.value)
    ensures r.Ok? ==> forall name :: name in r.value <==> DirEntry(name, false) in listing.value
    ensures r.Ok? ==> multiset(r.value) == multiset(RegularFileNames(listing.value))
  {
    match listing
    case None => Err(InvalidDirectory)
    case Some(entries) =>
      if |entries| == 0 then Err(EmptyDirectory)
      else
        var names := Sort(RegularFileNames(entries));
        assert forall name :: name in names <==> name in multiset(names);
        Ok(names)
  }

  lemma {:induction false} NoRegularFiles(entries: seq<DirEntry>)
    requires forall e :: e in entries ==> e.isDirectory
    ensures RegularFileNames(entries) == []
    decreases |entries|
  {
    if |entries| > 0 {
      assert entries[0] in entries;
      assert forall e :: e in entries[1..] ==> e in entries;
      NoRegularFiles(entries[1..]);
    }
  }

  /** The emptiness test looks at the raw listing: a directory holding only
      subdirectories is not an error, and yields no names. */
  lemma OnlySubdirectories(entries: seq<DirEntry>)
    requires |entries| > 0
    requires forall e :: e in entries ==> e.isDirectory
    ensures ListFiles(Some(entries)) == Ok([])
  {
    var names := ListFiles(Some(entries)).value;
    assert multiset(names) == multiset(RegularFileNames(entries));
    NoRegularFiles(entries);
    assert |names| == |multiset(names)| == 0;
  }
}
