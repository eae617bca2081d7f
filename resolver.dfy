/** getFirstFreeName: the first whole second, from the moment's own second
    on, whose rendered name gives a path that does not exist yet.

    The search is stated for any injective renderer of seconds; the program's
    renderer, DateFormat.FormatSeconds, is one (DateFormat.FormatSecondsInjective). */
module Resolver {
  import opened FileNames
  import DateFormat

  /** newPath: the file's directory, the new name, and the file's own
      extension.  The target stays in the file's directory and keeps the
      file's extension. */
  function NewPath(f: FileName, newName: string): (r: string)
    ensures Separator !in newName && (f.extension.Some? ==> Separator !in f.extension.value) ==>
      ParseFileName(r).path == f.path
    ensures f.extension.Some? && '.' !in f.extension.value ==> ExtensionOf(r) == f.extension
  {
    Glue(f.path, newName, f.extension)
  }

  lemma NewPathInjective(f: FileName, a: string, b: string)
    ensures NewPath(f, a) == NewPath(f, b) ==> a == b
  {
    if NewPath(f, a) == NewPath(f, b) {
      var suffix := if f.extension.Some? then "." + f.extension.value else "";
      var n := |f.path| + 1;
      assert NewPath(f, a) == f.path + [Separator] + a + suffix;
      assert NewPath(f, b) == f.path + [Separator] + b + suffix;
      assert |a| == |b|;
      assert NewPath(f, a)[n..n + |a|] == a;
      assert NewPath(f, b)[n..n + |b|] == b;
    }
  }

  ghost predicate Injective(render: int -> string) {
    forall a, b :: render(a) == render(b) ==> a == b
  }

  /** The path tried for local second `second`. */
  function CandidatePath(render: int -> string, f: FileName, second: int): string {
    NewPath(f, render(second))
  }

  /** Different seconds are tried under different paths. */
  lemma CandidatePathInjective(render: int -> string, f: FileName, s: int, t: int)
    requires Injective(render)
    ensures CandidatePath(render, f, s) == CandidatePath(render, f, t) ==> s == t
  {
    NewPathInjective(f, render(s), render(t));
  }

  /** The existing paths that are candidates for second `from` or a later one. */
  ghost function TakenFrom(render: int -> string, f: FileName, from: int, existing: set<string>): set<string> {
    set p | p in existing && exists t :: from <= t && p == CandidatePath(render, f, t)
  }

  /** A taken candidate leaves the measure when the search moves past it. */
  lemma TakenShrinks(render: int -> string, f: FileName, from: int, existing: set<string>)
    requires Injective(render)
    requires CandidatePath(render, f, from) in existing
    ensures |TakenFrom(render, f, from + 1, existing)| < |TakenFrom(render, f, from, existing)|
  {
    var p := CandidatePath(render, f, from);
    var before := TakenFrom(render, f, from, existing);
    var after := TakenFrom(render, f, from + 1, existing);
    assert p in before;
    forall q | q in after
      ensures q in before - {p}
    {
      var t :| from + 1 <= t && q == CandidatePath(render, f, t);
      CandidatePathInjective(render, f, from, t);
    }
    var rest := before - {p};
    assert before == rest + {p};
    assert rest == after + (rest - after);
  }

  /** The least second from `from` on whose candidate path is free. */
  function FirstFreeSecond(render: int -> string, f: FileName, from: int, existing: set<string>): (s: int)
    requires Injective(render)
    ensures from <= s
    ensures CandidatePath(render, f, s) !in existing
    ensures forall t :: from <= t < s ==> CandidatePath(render, f, t) in existing
    decreases |TakenFrom(render, f, from, existing)|
  {
    if CandidatePath(render, f, from) !in existing then from
    else
      TakenShrinks(render, f, from, existing);
      FirstFreeSecond(render, f, from + 1, existing)
  }

  /** The second getFirstFreeName settles on for a moment (in milliseconds). */
  function FreeSecond(f: FileName, date: int, existing: set<string>): int {
    DateFormat.FormatSecondsInjective();
    FirstFreeSecond(DateFormat.FormatSeconds, f, date / DateFormat.MillisPerSecond, existing)
  }

  /** The name getFirstFreeName settles on for a moment: its path is free. */
  function FreeName(f: FileName, date: int, existing: set<string>): (newName: string)
    ensures NewPath(f, newName) !in existing
  {
    DateFormat.FormatSecondsInjective();
    DateFormat.FormatSeconds(FreeSecond(f, date, existing))
  }

  /** The search looks only at the file's directory and extension. */
  lemma FirstFreeSecondSameSlot(render: int -> string, f: FileName, g: FileName, from: int, existing: set<string>)
    requires Injective(render)
    requires f.path == g.path && f.extension == g.extension
    ensures FirstFreeSecond(render, f, from, existing) == FirstFreeSecond(render, g, from, existing)
  {
    var sf := FirstFreeSecond(render, f, from, existing);
    var sg := FirstFreeSecond(render, g, from, existing);
    assert CandidatePath(render, f, sf) == CandidatePath(render, g, sf);
    assert CandidatePath(render, f, sg) == CandidatePath(render, g, sg);
  }

  /** Two files in the same directory with the same extension, dated within
      the same second, are offered the same name. */
  lemma FreeNameSameSlot(f: FileName, g: FileName, fDate: int, gDate: int, existing: set<string>)
    requires f.path == g.path && f.extension == g.extension
    requires fDate / DateFormat.MillisPerSecond == gDate / DateFormat.MillisPerSecond
    ensures FreeName(f, fDate, existing) == FreeName(g, gDate, existing)
  {
    DateFormat.FormatSecondsInjective();
    FirstFreeSecondSameSlot(DateFormat.FormatSeconds, f, g, fDate / DateFormat.MillisPerSecond, existing);
  }

  /** Once every candidate up to the one chosen is taken, the next search
      from the same second lands strictly later. */
  lemma FirstFreeSecondPastTaken(render: int -> string, f: FileName, from: int, existing: set<string>, later: set<string>)
    requires Injective(render)
    requires forall t :: from <= t <= FirstFreeSecond(render, f, from, existing) ==> CandidatePath(render, f, t) in later
    ensures FirstFreeSecond(render, f, from, later) > FirstFreeSecond(render, f, from, existing)
  {
  }

  /** A still renamed to its free name: a file of the same directory,
      extension and second is then offered a strictly later second, provided
      the renamed file's old path was never a candidate. */
  lemma FreeNameAfterRename(f: FileName, g: FileName, fDate: int, gDate: int, existing: set<string>)
    requires f.path == g.path && f.extension == g.extension
    requires fDate / DateFormat.MillisPerSecond == gDate / DateFormat.MillisPerSecond
    requires forall t :: f.file != NewPath(f, DateFormat.FormatSeconds(t))
    ensures var after := existing - {f.file} + {NewPath(f, FreeName(f, fDate, existing))};
      && FreeSecond(g, gDate, after) > FreeSecond(f, fDate, existing)
      && FreeName(g, gDate, after) != FreeName(f, fDate, existing)
  {
    DateFormat.FormatSecondsInjective();
    var render := DateFormat.FormatSeconds;
    var from := fDate / DateFormat.MillisPerSecond;
    var s := FirstFreeSecond(render, f, from, existing);
    var after := existing - {f.file} + {NewPath(f, FreeName(f, fDate, existing))};
    forall t | from <= t <= s
      ensures CandidatePath(render, f, t) in after
    {
      assert f.file != NewPath(f, render(t));
    }
    FirstFreeSecondPastTaken(render, f, from, existing, after);
    FirstFreeSecondSameSlot(render, f, g, from, after);
  }

  /** getFirstFreeName: truncate the moment to its second by formatting and
      parsing it, then render and step one second at a time while the
      rendered path exists. */
  method GetFirstFreeName(f: FileName, date: int, existing: set<string>) returns (newName: string)
    ensures newName == FreeName(f, date, existing)
  {
    ghost var start := date / DateFormat.MillisPerSecond;
    DateFormat.FormatSecondsInjective();
    var newDate := DateFormat.Parse(DateFormat.Format(date)).value;
    ghost var tried := start;
    DateFormat.FormatWholeSecond(tried);
    newName := DateFormat.Format(newDate);
    newDate := newDate + DateFormat.MillisPerSecond;
    while NewPath(f, newName) in existing
      invariant newDate == (tried + 1) * DateFormat.MillisPerSecond
      invariant start <= tried <= FirstFreeSecond(DateFormat.FormatSeconds, f, start, existing)
      invariant newName == DateFormat.FormatSeconds(tried)
      decreases |TakenFrom(DateFormat.FormatSeconds, f, tried, existing)|
    {
      TakenShrinks(DateFormat.FormatSeconds, f, tried, existing);
      DateFormat.FormatWholeSecond(tried + 1);
      newName := DateFormat.Format(newDate);
      newDate := newDate + DateFormat.MillisPerSecond;
      tried := tried + 1;
    }
    assert CandidatePath(DateFormat.FormatSeconds, f, tried) !in existing;
    assert tried == FreeSecond(f, date, existing);
  }
}
