/** The task store: an ordered sequence of tasks and the `nextId` counter,
    with the add/remove/find/search/toggle/sort operations and persistence as
    a sequence of lines. */
module TaskStore {
  import opened Wrappers
  import opened Ascii
  import opened Numbers
  import opened Utils
  import opened Tasks
  import opened TaskCodec
  import opened TaskOrder

  function Max(a: int, b: int): int {
    if a >= b then a else b
  }

  /** No two tasks share an id. */
  ghost predicate UniqueIds(s: seq<Task>) {
    forall i, j :: 0 <= i < j < |s| ==> s[i].id != s[j].id
  }

  // ------------------------------------------------------------ removal

  /** The tasks that do not carry `id`, in their order. */
  function WithoutId(s: seq<Task>, id: int): seq<Task> {
    if s == [] then [] else (if s[0].id == id then [] else [s[0]]) + WithoutId(s[1..], id)
  }

  /** One more task examined: it is kept exactly when its id differs. */
  lemma WithoutIdStep(s: seq<Task>, id: int, i: nat, kept: seq<Task>)
    requires i < |s| && kept + WithoutId(s[i..], id) == WithoutId(s, id)
    ensures s[i].id != id ==> (kept + [s[i]]) + WithoutId(s[i + 1..], id) == WithoutId(s, id)
    ensures s[i].id == id ==> kept + WithoutId(s[i + 1..], id) == WithoutId(s, id)
  {
    assert s[i..][1..] == s[i + 1..];
    assert (kept + [s[i]]) + WithoutId(s[i + 1..], id) == kept + ([s[i]] + WithoutId(s[i + 1..], id));
    assert [] + WithoutId(s[i + 1..], id) == WithoutId(s[i + 1..], id);
  }

  /** Removal keeps exactly the tasks with another id, and shortens the
      sequence exactly when some task carries the id. */
  lemma {:induction false} WithoutIdKeepsOthers(s: seq<Task>, id: int)
    ensures forall t :: t in WithoutId(s, id) <==> t in s && t.id != id
    ensures |WithoutId(s, id)| <= |s|
    ensures |WithoutId(s, id)| == |s| <==> forall k :: 0 <= k < |s| ==> s[k].id != id
  {
    if s != [] {
      WithoutIdKeepsOthers(s[1..], id);
      assert s == [s[0]] + s[1..];
      assert forall k :: 1 <= k < |s| ==> s[k] == s[1..][k - 1];
    }
  }

  /** Removal works element by element, so the relative order of what is
      kept does not change. */
  lemma {:induction false} WithoutIdConcat(a: seq<Task>, b: seq<Task>, id: int)
    ensures WithoutId(a + b, id) == WithoutId(a, id) + WithoutId(b, id)
  {
    if a == [] {
      assert a + b == b;
    } else {
      var head := if a[0].id == id then [] else [a[0]];
      calc {
        WithoutId(a + b, id);
      == { assert (a + b)[1..] == a[1..] + b; assert (a + b)[0] == a[0]; }
        head + WithoutId(a[1..] + b, id);
      == { WithoutIdConcat(a[1..], b, id); }
        head + (WithoutId(a[1..], id) + WithoutId(b, id));
      ==
        (head + WithoutId(a[1..], id)) + WithoutId(b, id);
      }
    }
  }

  lemma {:induction false} WithoutIdKeepsUnique(s: seq<Task>, id: int)
    requires UniqueIds(s)
    ensures UniqueIds(WithoutId(s, id))
  {
    if s != [] {
      assert UniqueIds(s[1..]);
      WithoutIdKeepsUnique(s[1..], id);
      WithoutIdKeepsOthers(s[1..], id);
      var rest := WithoutId(s[1..], id);
      forall j | 0 <= j < |rest|
        ensures rest[j].id != s[0].id
      {
        assert rest[j] in s[1..];
      }
    }
  }

  /** What removal keeps: a shorter sequence exactly when the id was
      present, the bound on ids, and uniqueness of ids. */
  lemma RemovalKeeps(s: seq<Task>, id: int, n: int)
    ensures |WithoutId(s, id)| != |s| <==> exists k :: 0 <= k < |s| && s[k].id == id
    ensures (forall k :: 0 <= k < |s| ==> s[k].id < n) ==>
              forall k :: 0 <= k < |WithoutId(s, id)| ==> WithoutId(s, id)[k].id < n
    ensures UniqueIds(s) ==> UniqueIds(WithoutId(s, id))
  {
    WithoutIdKeepsOthers(s, id);
    if UniqueIds(s) {
      WithoutIdKeepsUnique(s, id);
    }
    var r := WithoutId(s, id);
    if forall k :: 0 <= k < |s| ==> s[k].id < n {
      forall k | 0 <= k < |r| ensures r[k].id < n {
        assert r[k] in s;
      }
    }
  }

  // ------------------------------------------------------------- lookup

  /** Position of the first task carrying `id`. */
  function FirstWithId(s: seq<Task>, id: int): (r: Option<nat>)
    ensures r.Some? ==> r.value < |s| && s[r.value].id == id
    ensures r.Some? ==> forall k :: 0 <= k < r.value ==> s[k].id != id
    ensures r.None? ==> forall k :: 0 <= k < |s| ==> s[k].id != id
  {
    if s == [] then None
    else if s[0].id == id then Some(0)
    else match FirstWithId(s[1..], id)
      case None => None
      case Some(i) => Some(i + 1)
  }

  // ------------------------------------------------------------- search

  /** `h.find(n) != npos`: `n` occurs in `h`; the empty string occurs everywhere. */
  function Contains(h: string, n: string): bool {
    n <= h || (h != [] && Contains(h[1..], n))
  }

  /** `n` occurs in `h` starting at position `i`. */
  predicate OccursAt(h: string, n: string, i: nat) {
    i + |n| <= |h| && h[i..i + |n|] == n
  }

  /** `Contains` finds exactly the positions where `n` occurs. */
  lemma ContainsIff(h: string, n: string)
    ensures Contains(h, n) <==> exists i: nat :: OccursAt(h, n, i)
  {
    if Contains(h, n) {
      var i := OccurrenceOfContains(h, n);
    }
    if exists i: nat :: OccursAt(h, n, i) {
      var i: nat :| OccursAt(h, n, i);
      ContainsOfOccurrence(h, n, i);
    }
  }

  /** Where `Contains` finds `n`. */
  lemma {:induction false} OccurrenceOfContains(h: string, n: string) returns (i: nat)
    requires Contains(h, n)
    ensures OccursAt(h, n, i)
    decreases |h|
  {
    if n <= h {
      i := 0;
      assert h[0..|n|] == n;
    } else {
      var j := OccurrenceOfContains(h[1..], n);
      i := j + 1;
      assert h[i..i + |n|] == h[1..][j..j + |n|];
    }
  }

  /** An occurrence anywhere is found by `Contains`. */
  lemma {:induction false} ContainsOfOccurrence(h: string, n: string, i: nat)
    requires OccursAt(h, n, i)
    ensures Contains(h, n)
    decreases i
  {
    if i == 0 {
      assert h[..|n|] == n;
    } else {
      assert h[1..][i - 1..i - 1 + |n|] == h[i..i + |n|];
      ContainsOfOccurrence(h[1..], n, i - 1);
    }
  }

  /** The tasks whose lower-cased title contains `q`, in store order. */
  function Matching(s: seq<Task>, q: string): seq<Task> {
    if s == [] then []
    else (if Contains(Lowered(s[0].title), q) then [s[0]] else []) + Matching(s[1..], q)
  }

  /** One more task examined: it is kept exactly when its lowered title
      holds the query. */
  lemma MatchingStep(s: seq<Task>, q: string, i: nat, r: seq<Task>)
    requires i < |s| && r + Matching(s[i..], q) == Matching(s, q)
    ensures Contains(Lowered(s[i].title), q) ==> (r + [s[i]]) + Matching(s[i + 1..], q) == Matching(s, q)
    ensures !Contains(Lowered(s[i].title), q) ==> r + Matching(s[i + 1..], q) == Matching(s, q)
  {
    assert s[i..][1..] == s[i + 1..];
    assert (r + [s[i]]) + Matching(s[i + 1..], q) == r + ([s[i]] + Matching(s[i + 1..], q));
    assert [] + Matching(s[i + 1..], q) == Matching(s[i + 1..], q);
  }

  lemma {:induction false} MatchingSelects(s: seq<Task>, q: string)
    ensures forall t :: t in Matching(s, q) <==> t in s && Contains(Lowered(t.title), q)
  {
    if s != [] {
      MatchingSelects(s[1..], q);
      assert s == [s[0]] + s[1..];
    }
  }

  /** An empty query matches every task. */
  lemma {:induction false} MatchingEmptyQuery(s: seq<Task>)
    ensures Matching(s, []) == s
  {
    if s != [] {
      MatchingEmptyQuery(s[1..]);
      assert [] <= Lowered(s[0].title);
    }
  }

  /** Lower-casing keeps a prefix a prefix. */
  lemma LoweredPrefix(n: string, h: string)
    requires n <= h
    ensures Lowered(n) <= Lowered(h)
  {
    assert Lowered(n) == Lowered(h)[..|n|];
  }

  /** Lower-casing keeps an occurrence an occurrence. */
  lemma {:induction false} LoweredContains(h: string, n: string)
    requires Contains(h, n)
    ensures Contains(Lowered(h), Lowered(n))
  {
    if n <= h {
      LoweredPrefix(n, h);
    } else {
      LoweredContains(h[1..], n);
      assert Lowered(h)[1..] == Lowered(h[1..]);
    }
  }

  /** The search ignores case: a task whose title holds some text `q'`
      that lower-cases to the lower-cased trimmed query, in whatever mix of
      cases, is found. */
  lemma SearchIgnoresCase(s: seq<Task>, query: string, t: Task, q': string)
    requires t in s && Contains(t.title, q') && Lowered(q') == Lowered(Trimmed(query))
    ensures t in Matching(s, Lowered(Trimmed(query)))
  {
    LoweredContains(t.title, q');
    MatchingSelects(s, Lowered(Trimmed(query)));
  }

  /** The search filters element by element, so the tasks it finds keep
      their store order. */
  lemma {:induction false} MatchingConcat(a: seq<Task>, b: seq<Task>, q: string)
    ensures Matching(a + b, q) == Matching(a, q) + Matching(b, q)
  {
    if a == [] {
      assert a + b == b;
    } else {
      var head := if Contains(Lowered(a[0].title), q) then [a[0]] else [];
      calc {
        Matching(a + b, q);
      == { assert (a + b)[1..] == a[1..] + b; assert (a + b)[0] == a[0]; }
        head + Matching(a[1..] + b, q);
      == { MatchingConcat(a[1..], b, q); }
        head + (Matching(a[1..], q) + Matching(b, q));
      ==
        (head + Matching(a[1..], q)) + Matching(b, q);
      }
    }
  }

  /** "mile" finds "Milestone Review". */
  lemma SearchFindsOtherCase(s: seq<Task>, t: Task)
    requires t in s && t.title == "Milestone Review"
    ensures t in Matching(s, Lowered(Trimmed("mile")))
  {
    TrimmedUnchanged("mile");
    assert "Mile" <= t.title;
    assert Lowered("Mile") == "mile" == Lowered("mile");
    SearchIgnoresCase(s, "mile", t, "Mile");
  }

  // -------------------------------------------------------- persistence

  /** The store's state as a value. */
  datatype Snapshot = Snapshot(tasks: seq<Task>, nextId: int)

  /** `add(t)` for a non-null task. */
  function AddTo(st: Snapshot, t: Task): (r: Snapshot)
    ensures r.tasks == st.tasks + [t]
    ensures r.nextId >= st.nextId && r.nextId > t.id
    ensures r.nextId == st.nextId || r.nextId == t.id + 1
  {
    Snapshot(st.tasks + [t], Max(st.nextId, t.id + 1))
  }

  /** The task lines of a save: one serialized line per task, in store order. */
  function SerializeAll(ts: seq<Task>): (r: seq<string>)
    ensures |r| == |ts| && forall k :: 0 <= k < |ts| ==> r[k] == Serialize(ts[k])
  {
    seq(|ts|, k requires 0 <= k < |ts| => Serialize(ts[k]))
  }

  const HeaderPrefix: string := "NEXTID|"

  /** What `saveToFile` writes: the header line, then one line per task in
      store order. */
  function SavedLines(ts: seq<Task>, nextId: int): seq<string> {
    [HeaderPrefix + IntToString(nextId)] + SerializeAll(ts)
  }

  /** The file's text: every line followed by `\n`. */
  function FileText(lines: seq<string>): string {
    if lines == [] then [] else lines[0] + "\n" + FileText(lines[1..])
  }

  lemma {:induction false} FileTextAppend(lines: seq<string>, line: string)
    ensures FileText(lines + [line]) == FileText(lines) + line + "\n"
  {
    if lines != [] {
      assert (lines + [line])[1..] == lines[1..] + [line];
      FileTextAppend(lines[1..], line);
    } else {
      assert [] + [line] == [line];
    }
  }

  /** Reading the text back with `getline` gives the lines that were
      written, provided none of them holds a line break. */
  lemma {:induction false} LinesOfFileText(lines: seq<string>)
    requires forall k :: 0 <= k < |lines| ==> '\n' !in lines[k]
    ensures Pieces(FileText(lines), '\n') == lines
  {
    if lines != [] {
      LinesOfFileText(lines[1..]);
      PiecesAfterDelimiter(lines[0], '\n', FileText(lines[1..]));
    }
  }

  /** One line of `loadFromFile`: trimmed; blank lines skipped; a header sets
      `nextId` from its second piece; any other line is deserialized and a
      produced task added. `None` is a `stoi` exception, which ends the load. */
  function LoadLine(st: Snapshot, line: string): Option<Snapshot> {
    var l := Trimmed(line);
    if l == [] then Some(st)
    else if HeaderPrefix <= l then
      var parts := Pieces(l, '|');
      if |parts| >= 2 then
        match StoI(parts[1])
        case None => None
        case Some(n) => Some(st.(nextId := n))
      else Some(st)
    else
      match Deserialize(l)
      case Produced(t) => Some(AddTo(st, t))
      case NoTask => Some(st)
      case ParseError => None
  }

  /** The state a load reaches, and whether an exception cut it short. */
  datatype Loading = Loading(state: Snapshot, aborted: bool)

  function LoadLines(st: Snapshot, lines: seq<string>): Loading
    decreases |lines|
  {
    if lines == [] then Loading(st, false)
    else match LoadLine(st, lines[0])
      case None => Loading(st, true)
      case Some(st') => LoadLines(st', lines[1..])
  }

  /** The largest id, and at least 0 (the `maxId` loop of `loadFromFile`). */
  function MaxId(ts: seq<Task>): (m: int)
    ensures m >= 0 && forall k :: 0 <= k < |ts| ==> ts[k].id <= m
  {
    if ts == [] then 0 else Max(MaxId(ts[..|ts| - 1]), ts[|ts| - 1].id)
  }

  /** `loadFromFile` on lines that could be read: start empty with `nextId`
      1, take every line, then raise `nextId` above every loaded id. */
  function LoadSpec(lines: seq<string>): Loading {
    var r := LoadLines(Snapshot([], 1), lines);
    if r.aborted then r
    else Loading(r.state.(nextId := Max(r.state.nextId, MaxId(r.state.tasks) + 1)), false)
  }

  /** After a load that was not cut short, `nextId` is positive and exceeds
      every loaded id, whatever the header said. */
  lemma LoadSpecIdsBelowNextId(lines: seq<string>)
    requires !LoadSpec(lines).aborted
    ensures var st := LoadSpec(lines).state;
      1 <= st.nextId && forall k :: 0 <= k < |st.tasks| ==> st.tasks[k].id < st.nextId
  {
  }

  /** A task that survives a save and a load unchanged, when it carries an
      extra field: its id and interval fit an `int`, its texts hold no `|`
      and no line break, and a due date does not end in whitespace (the
      loader trims the line). */
  predicate Reloadable(t: Task) {
    && InInt32(t.id) && PipeFree(t) && NewlineFree(t)
    && (t.variant.Recurring? ==> InInt32(t.variant.intervalDays))
    && (t.variant.Deadline? && t.variant.dueDate != [] ==> !IsSpace(t.variant.dueDate[|t.variant.dueDate| - 1]))
  }

  /** The tasks a load gets back: those whose line keeps its extra field,
      in order. */
  function Survivors(ts: seq<Task>): (r: seq<Task>)
    ensures |r| <= |ts|
    ensures forall k :: 0 <= k < |r| ==> HasExtra(r[k])
  {
    if ts == [] then []
    else
      var last := ts[|ts| - 1];
      Survivors(ts[..|ts| - 1]) + if HasExtra(last) then [last] else []
  }

  /** Every survivor is one of the saved tasks, and when every saved task
      keeps its extra field, all of them survive. */
  lemma {:induction false} SurvivorsOfSaved(ts: seq<Task>)
    ensures forall x :: x in Survivors(ts) ==> x in ts
    ensures (forall k :: 0 <= k < |ts| ==> HasExtra(ts[k])) ==> Survivors(ts) == ts
  {
    if ts != [] {
      var init := ts[..|ts| - 1];
      SurvivorsOfSaved(init);
      assert ts == init + [ts[|ts| - 1]];
      assert forall x :: x in init ==> x in ts;
    }
  }

  /** The header line written by `saveToFile` sets `nextId` back. */
  lemma LoadLineOfHeader(st: Snapshot, n: int)
    requires InInt32(n)
    ensures LoadLine(st, HeaderPrefix + IntToString(n)) == Some(st.(nextId := n))
  {
    HeaderLineParts(n);
  }

  /** The header line survives trimming, starts with the prefix, and
      splits into the tag and the number, which reads back. */
  lemma HeaderLineParts(n: int)
    requires InInt32(n)
    ensures var l := HeaderPrefix + IntToString(n);
      && Trimmed(l) == l && l != [] && HeaderPrefix <= l
      && |Pieces(l, '|')| == 2 && StoI(Pieces(l, '|')[1]) == Some(n)
  {
    var s := IntToString(n);
    var l := HeaderPrefix + s;
    TrimmedUnchanged(l);
    assert forall j :: 0 <= j < |s| ==> IsDigit(s[j]) || s[j] == '-';
    assert l == Join(["NEXTID", s], '|');
    PiecesOfJoin(["NEXTID", s], '|');
    StoIOfIntToString(n);
  }

  /** The extra field of a reloadable task is empty or ends in a character
      `trim` keeps. */
  lemma ExtraEnd(t: Task)
    requires t.variant.Deadline? && t.variant.dueDate != [] ==> !IsSpace(t.variant.dueDate[|t.variant.dueDate| - 1])
    ensures Extra(t) == [] || !IsSpace(Extra(t)[|Extra(t)| - 1])
  {
    match t.variant
    case Simple =>
    case Deadline(due) =>
      EscapedKeepsCharsAndLast(due, '|');
    case Recurring(n) =>
      var s := IntToString(n);
      assert IsDigit(s[|s| - 1]);
  }

  /** A reloadable task's line ends in a character `trim` keeps. */
  lemma SerializedLineEnd(t: Task)
    requires Reloadable(t)
    ensures var s := Serialize(t); !IsSpace(s[|s| - 1])
  {
    SerializeEnds(t);
    ExtraEnd(t);
  }

  /** A serialized task line has no whitespace at either end and is not a
      header, so the loader hands it to `deserialize` as it is. */
  lemma SerializedLineIsRecord(t: Task)
    requires Reloadable(t)
    ensures var s := Serialize(t); s != [] && Trimmed(s) == s && !(HeaderPrefix <= s)
  {
    var s := Serialize(t);
    SerializeEnds(t);
    TagStart(t.Kind());
    SerializedLineEnd(t);
    TrimmedUnchanged(s);
    NotHeader(s);
  }

  /** Every tag starts with a letter other than the header's `N`. */
  lemma TagStart(k: Kind)
    ensures !IsSpace(Tag(k)[0]) && Tag(k)[0] != HeaderPrefix[0]
  {
  }

  /** A line whose first character differs from the header's is no header. */
  lemma NotHeader(s: string)
    requires s != [] && s[0] != HeaderPrefix[0]
    ensures !(HeaderPrefix <= s)
  {
  }

  /** A serialized task line adds the task back when it keeps its extra
      field, and is skipped otherwise. */
  lemma LoadLineOfSerialized(st: Snapshot, t: Task)
    requires Reloadable(t) && t.id < st.nextId
    ensures LoadLine(st, Serialize(t)) == Some(if HasExtra(t) then Snapshot(st.tasks + [t], st.nextId) else st)
  {
    SerializedLineIsRecord(t);
    if HasExtra(t) {
      DeserializeSerialize(t);
    } else {
      DeserializeSerializeDropsEmptyExtra(t);
    }
  }

  /** Lines each taken without an exception, from each state to the next,
      end the load in the last state. */
  lemma {:induction false} LoadLinesChain(sts: seq<Snapshot>, lines: seq<string>)
    requires |sts| == |lines| + 1
    requires forall k :: 0 <= k < |lines| ==> LoadLine(sts[k], lines[k]) == Some(sts[k + 1])
    ensures LoadLines(sts[0], lines) == Loading(sts[|lines|], false)
    decreases |lines|
  {
    if lines != [] {
      assert forall k :: 0 <= k < |lines| - 1 ==> sts[1..][k] == sts[k + 1] && lines[1..][k] == lines[k + 1];
      LoadLinesChain(sts[1..], lines[1..]);
    }
  }

  /** The states a load of a saved file passes through: the empty store,
      then `nextId` set by the header, then one survivor more per kept
      task line. */
  function SavedStates(ts: seq<Task>, n: int): (sts: seq<Snapshot>)
    ensures |sts| == |ts| + 2 && sts[0] == Snapshot([], 1)
    ensures forall k :: 0 <= k <= |ts| ==> sts[k + 1] == Snapshot(Survivors(ts[..k]), n)
    ensures sts[|ts| + 1] == Snapshot(Survivors(ts), n)
  {
    if ts == [] then [Snapshot([], 1), Snapshot([], n)]
    else
      var init := ts[..|ts| - 1];
      assert forall k :: 0 <= k <= |init| ==> init[..k] == ts[..k];
      assert ts[..|ts|] == ts;
      SavedStates(init, n) + [Snapshot(Survivors(ts), n)]
  }

  /** Line `k` of a saved file takes the load from state `k` to state
      `k + 1`. */
  lemma SavedLineStep(ts: seq<Task>, n: int, k: nat)
    requires InInt32(n)
    requires forall j :: 0 <= j < |ts| ==> Reloadable(ts[j]) && ts[j].id < n
    requires k <= |ts|
    ensures LoadLine(SavedStates(ts, n)[k], SavedLines(ts, n)[k]) == Some(SavedStates(ts, n)[k + 1])
  {
    if k == 0 {
      assert ts[..0] == [];
      LoadLineOfHeader(Snapshot([], 1), n);
    } else {
      TaskLineStep(ts, n, k - 1);
    }
  }

  /** Taking the saved lines from an empty store: the header restores
      `nextId`, then the survivors come back in order. */
  lemma LoadSavedLines(ts: seq<Task>, n: int)
    requires InInt32(n)
    requires forall k :: 0 <= k < |ts| ==> Reloadable(ts[k]) && ts[k].id < n
    ensures LoadLines(Snapshot([], 1), SavedLines(ts, n)) == Loading(Snapshot(Survivors(ts), n), false)
  {
    var lines := SavedLines(ts, n);
    var sts := SavedStates(ts, n);
    forall k | 0 <= k < |lines|
      ensures LoadLine(sts[k], lines[k]) == Some(sts[k + 1])
    {
      SavedLineStep(ts, n, k);
    }
    LoadLinesChain(sts, lines);
  }

  lemma SurvivorsSnoc(ts: seq<Task>, k: nat)
    requires k < |ts|
    ensures HasExtra(ts[k]) ==> Survivors(ts[..k + 1]) == Survivors(ts[..k]) + [ts[k]]
    ensures !HasExtra(ts[k]) ==> Survivors(ts[..k + 1]) == Survivors(ts[..k])
  {
    assert ts[..k + 1][..k] == ts[..k];
    assert Survivors(ts[..k]) + [] == Survivors(ts[..k]);
  }

  /** The task line at `k` adds the task to the survivors before it, or
      skips it. */
  lemma TaskLineStep(ts: seq<Task>, n: int, k: nat)
    requires k < |ts| && Reloadable(ts[k]) && ts[k].id < n
    ensures LoadLine(Snapshot(Survivors(ts[..k]), n), Serialize(ts[k])) == Some(Snapshot(Survivors(ts[..k + 1]), n))
  {
    SurvivorsSnoc(ts, k);
    LoadLineOfSerialized(Snapshot(Survivors(ts[..k]), n), ts[k]);
  }

  /** Ids below `n`, with `n` positive, keep the `maxId` loop below `n`. */
  lemma {:induction false} MaxIdBelow(ts: seq<Task>, n: int)
    requires 1 <= n && forall k :: 0 <= k < |ts| ==> ts[k].id < n
    ensures MaxId(ts) < n
  {
    if ts != [] {
      MaxIdBelow(ts[..|ts| - 1], n);
    }
  }

  /** The saved file reads back as the lines that were written. */
  lemma SavedFileLines(ts: seq<Task>, n: int)
    requires forall k :: 0 <= k < |ts| ==> NewlineFree(ts[k])
    ensures Pieces(FileText(SavedLines(ts, n)), '\n') == SavedLines(ts, n)
  {
    var lines := SavedLines(ts, n);
    var s := IntToString(n);
    assert forall j :: 0 <= j < |s| ==> IsDigit(s[j]) || s[j] == '-';
    assert lines[0] == HeaderPrefix + s;
    forall k | 0 <= k < |lines|
      ensures '\n' !in lines[k]
    {
      if k > 0 {
        SerializeNewlineFree(ts[k - 1]);
      }
    }
    LinesOfFileText(lines);
  }

  lemma SurvivorIdsBelow(ts: seq<Task>, n: int)
    requires 1 <= n && forall k :: 0 <= k < |ts| ==> ts[k].id < n
    ensures MaxId(Survivors(ts)) < n
  {
    SurvivorsOfSaved(ts);
    var r := Survivors(ts);
    forall k | 0 <= k < |r|
      ensures r[k].id < n
    {
      assert r[k] in ts;
    }
    MaxIdBelow(r, n);
  }

  /** `saveToFile` then `loadFromFile`: a store whose tasks are reloadable
      and whose `nextId` exceeds their ids and fits an `int` comes back with
      the same `nextId` and exactly the tasks that keep an extra field, in
      order. */
  lemma SaveLoadRoundTrip(ts: seq<Task>, n: int)
    requires 1 <= n && InInt32(n)
    requires forall k :: 0 <= k < |ts| ==> Reloadable(ts[k]) && ts[k].id < n
    ensures LoadSpec(Pieces(FileText(SavedLines(ts, n)), '\n')) == Loading(Snapshot(Survivors(ts), n), false)
  {
    SavedFileLines(ts, n);
    LoadSavedLines(ts, n);
    SurvivorIdsBelow(ts, n);
  }

  /** When every task keeps its extra field, the store comes back whole. */
  lemma SaveLoadKeepsAll(ts: seq<Task>, n: int)
    requires 1 <= n && InInt32(n)
    requires forall k :: 0 <= k < |ts| ==> Reloadable(ts[k]) && HasExtra(ts[k]) && ts[k].id < n
    ensures LoadSpec(Pieces(FileText(SavedLines(ts, n)), '\n')) == Loading(Snapshot(ts, n), false)
  {
    SaveLoadRoundTrip(ts, n);
    SurvivorsOfSaved(ts);
  }

  /** A simple task never comes back from a save and a load: its line ends
      in `|`, so it splits into six pieces. A store holding a simple task
      and a deadline task reloads with the deadline task alone. */
  lemma SaveLoadLosesSimpleTasks(ts: seq<Task>, n: int)
    requires 1 <= n && InInt32(n)
    requires forall k :: 0 <= k < |ts| ==> Reloadable(ts[k]) && ts[k].id < n
    ensures var loaded := LoadSpec(Pieces(FileText(SavedLines(ts, n)), '\n')).state.tasks;
      forall t :: t in loaded ==> t in ts && !t.variant.Simple?
  {
    SaveLoadRoundTrip(ts, n);
    SurvivorsNotSimple(ts);
  }

  /** The survivors were saved, and none of them is a simple task. */
  lemma SurvivorsNotSimple(ts: seq<Task>)
    ensures forall t :: t in Survivors(ts) ==> t in ts && !t.variant.Simple?
  {
    SurvivorsOfSaved(ts);
    var r := Survivors(ts);
    forall t | t in r
      ensures !t.variant.Simple?
    {
      var k :| 0 <= k < |r| && r[k] == t;
      assert HasExtra(r[k]);
    }
  }

  // ---------------------------------------------------------- the store

  datatype LoadStatus = Loaded | CannotOpen | Aborted

  class TaskManager {
    var tasks: seq<Task>
    var nextId: int

    /** Every task held has an id below `nextId`, so `nextId` is free. */
    ghost predicate Valid()
      reads this
    {
      1 <= nextId && forall k :: 0 <= k < |tasks| ==> tasks[k].id < nextId
    }

    function State(): Snapshot
      reads this
    {
      Snapshot(tasks, nextId)
    }

    constructor ()
      ensures tasks == [] && nextId == 1
      ensures Valid()
    {
      tasks := [];
      nextId := 1;
    }

    /** `nextId()`: an id that no task held by a valid store carries. */
    function NextId(): (n: int)
      reads this
      ensures Valid() ==> 1 <= n && forall k :: 0 <= k < |tasks| ==> tasks[k].id != n
    {
      nextId
    }

    /** `all()`: the tasks in store order. */
    function All(): (r: seq<Task>)
      reads this
      ensures |r| == |tasks| && forall k :: 0 <= k < |r| ==> r[k] == tasks[k]
    {
      tasks
    }

    /** `add(t)`: nothing for a null task; otherwise the task is appended and
      `nextId` folded forward past its id. */
    method Add(t: Option<Task>)
      modifies this
      ensures t.None? ==> tasks == old(tasks) && nextId == old(nextId)
      ensures t.Some? ==> State() == AddTo(old(State()), t.value)
      ensures t.Some? ==> tasks == old(tasks) + [t.value] && nextId == Max(old(nextId), t.value.id + 1)
      ensures old(Valid()) ==> Valid()
      ensures old(Valid()) && UniqueIds(old(tasks)) && t.Some? && t.value.id >= old(nextId) ==> UniqueIds(tasks)
    {
      if t.None? {
        return;
      }
      nextId := Max(nextId, t.value.id + 1);
      tasks := tasks + [t.value];
    }

    /** `removeById(id)`: every task carrying `id` goes, the rest keep their
      order, and the answer is whether any went. */
    method RemoveById(id: int) returns (removed: bool)
      modifies this
      ensures tasks == WithoutId(old(tasks), id) && nextId == old(nextId)
      ensures removed <==> exists k :: 0 <= k < |old(tasks)| && old(tasks)[k].id == id
      ensures old(Valid()) ==> Valid()
      ensures UniqueIds(old(tasks)) ==> UniqueIds(tasks)
    {
      var ts := tasks;
      var kept: seq<Task> := [];
      var i := 0;
      while i < |ts|
        invariant i <= |ts| && unchanged(this)
        invariant kept + WithoutId(ts[i..], id) == WithoutId(ts, id)
      {
        WithoutIdStep(ts, id, i, kept);
        if ts[i].id != id {
          kept := kept + [ts[i]];
        }
        i := i + 1;
      }
      assert ts[i..] == [];
      assert kept + [] == kept;
      RemovalKeeps(ts, id, nextId);
      removed := |kept| != |ts|;
      tasks := kept;
    }

    /** `findById(id)`: the position of the first task carrying `id`. */
    method FindById(id: int) returns (r: Option<nat>)
      ensures r == FirstWithId(tasks, id)
      ensures r.Some? ==> r.value < |tasks| && tasks[r.value].id == id
      ensures r.None? ==> forall k :: 0 <= k < |tasks| ==> tasks[k].id != id
    {
      var i := 0;
      while i < |tasks|
        invariant i <= |tasks|
        invariant forall k :: 0 <= k < i ==> tasks[k].id != id
      {
        if tasks[i].id == id {
          return Some(i);
        }
        i := i + 1;
      }
      return None;
    }

    /** `searchByTitle(query)`: in store order, the tasks whose lower-cased
      title contains the trimmed, lower-cased query. */
    method SearchByTitle(query: string) returns (r: seq<Task>)
      ensures r == Matching(tasks, Lowered(Trimmed(query)))
    {
      r := [];
      var trimmed := Trim(query);
      var q := ToLower(trimmed);
      for i := 0 to |tasks|
        invariant r + Matching(tasks[i..], q) == Matching(tasks, q)
      {
        MatchingStep(tasks, q, i, r);
        var title := ToLower(tasks[i].title);
        if Contains(title, q) {
          r := r + [tasks[i]];
        }
      }
      assert tasks[|tasks|..] == [];
    }

    /** `toggleDone(id)`: flips the flag of the first task carrying `id`,
      and nothing else. */
    method ToggleDone(id: int) returns (found: bool)
      modifies this
      ensures found <==> FirstWithId(old(tasks), id).Some?
      ensures found ==> var i := FirstWithId(old(tasks), id).value;
                        tasks == old(tasks)[i := old(tasks)[i].Toggled()]
      ensures !found ==> tasks == old(tasks)
      ensures nextId == old(nextId)
      ensures old(Valid()) ==> Valid()
      ensures UniqueIds(old(tasks)) ==> UniqueIds(tasks)
    {
      var i := FindById(id);
      if i.None? {
        return false;
      }
      tasks := tasks[i.value := tasks[i.value].Toggled()];
      return true;
    }

    method SortByPriorityThenId()
      modifies this
      ensures multiset(tasks) == multiset(old(tasks)) && nextId == old(nextId)
      ensures SortedBy(ByPriorityThenId, tasks)
      ensures forall i, j :: 0 <= i < j < |tasks| ==>
        tasks[i].priority.ToInt() >= tasks[j].priority.ToInt()
        && (tasks[i].priority == tasks[j].priority ==> tasks[i].id <= tasks[j].id)
      ensures old(Valid()) ==> Valid()
    {
      SortBySortsAndPermutes(ByPriorityThenId, tasks);
      SortKeepsValid(tasks, SortBy(ByPriorityThenId, tasks), nextId);
      tasks := SortBy(ByPriorityThenId, tasks);
    }

    method SortByTitle()
      modifies this
      ensures multiset(tasks) == multiset(old(tasks)) && nextId == old(nextId)
      ensures SortedBy(ByTitle, tasks)
      ensures forall i, j :: 0 <= i < j < |tasks| ==> !LexLess(Lowered(tasks[j].title), Lowered(tasks[i].title))
      ensures old(Valid()) ==> Valid()
    {
      SortBySortsAndPermutes(ByTitle, tasks);
      SortKeepsValid(tasks, SortBy(ByTitle, tasks), nextId);
      tasks := SortBy(ByTitle, tasks);
    }

    /** `saveToFile`: when the file opens, the header and one line per task;
      when it does not, nothing is written and the answer is false. */
    method SaveToFile(canOpen: bool) returns (ok: bool, text: string)
      ensures ok == canOpen
      ensures text == if canOpen then FileText(SavedLines(tasks, nextId)) else []
    {
      if !canOpen {
        return false, [];
      }
      var header := HeaderPrefix + IntToString(nextId);
      text := header + "\n";
      assert [header][1..] == [];
      for i := 0 to |tasks|
        invariant text == FileText([header] + SerializeAll(tasks[..i]))
      {
        SavedTextStep(header, tasks, i);
        text := text + Serialize(tasks[i]) + "\n";
      }
      assert tasks[..|tasks|] == tasks;
      ok := true;
    }

    /** The `maxId` loop of `loadFromFile`: the largest id held, and at least 0. */
    method MaxLoadedId() returns (maxId: int)
      ensures maxId == MaxId(tasks)
      ensures maxId >= 0 && forall k :: 0 <= k < |tasks| ==> tasks[k].id <= maxId
    {
      maxId := 0;
      for k := 0 to |tasks|
        invariant maxId == MaxId(tasks[..k])
      {
        assert tasks[..k + 1][..k] == tasks[..k];
        maxId := Max(maxId, tasks[k].id);
      }
      assert tasks[..|tasks|] == tasks;
    }

    /** The body of the read loop of `loadFromFile` for one line; false
      when `stoi` throws. */
    method TakeLine(raw: string) returns (ok: bool)
      modifies this
      ensures LoadLine(old(State()), raw) == if ok then Some(State()) else None
      ensures !ok ==> tasks == old(tasks) && nextId == old(nextId)
    {
      var line := Trim(raw);
      if line == [] {
        return true;
      }
      if HeaderPrefix <= line {
        var parts := Split(line, '|');
        if |parts| >= 2 {
          var n := StoI(parts[1]);
          if n.None? {
            return false;
          }
          nextId := n.value;
        }
        return true;
      }
      var t := Deserialize(line);
      if t.ParseError? {
        return false;
      }
      if t.Produced? {
        Add(Some(t.task));
      }
      return true;
    }

    /** The read loop of `loadFromFile`: every line taken in turn from the
      current state; false when a `stoi` exception ended it early. */
    method ReadLines(lines: seq<string>) returns (ok: bool)
      modifies this
      ensures LoadLines(old(State()), lines) == Loading(State(), !ok)
    {
      var i := 0;
      while i < |lines|
        invariant i <= |lines|
        invariant LoadLines(State(), lines[i..]) == LoadLines(old(State()), lines)
      {
        assert lines[i..][1..] == lines[i + 1..];
        ok := TakeLine(lines[i]);
        if !ok {
          return;
        }
        i := i + 1;
      }
      assert lines[i..] == [];
      ok := true;
    }

    /** `loadFromFile`: when the file opens, the store is emptied, `nextId`
      reset to 1 and every line taken in turn; after the last line `nextId`
      is raised above every loaded id. A `stoi` exception ends the load
      where it happens, without that last step. */
    method LoadFromFile(canOpen: bool, text: string) returns (status: LoadStatus)
      modifies this
      ensures !canOpen ==> status == CannotOpen && tasks == old(tasks) && nextId == old(nextId)
      ensures canOpen ==> status != CannotOpen
      ensures canOpen ==> var spec := LoadSpec(Pieces(text, '\n'));
        (status == Aborted <==> spec.aborted) && State() == spec.state
      ensures status == Loaded ==> Valid()
    {
      if !canOpen {
        return CannotOpen;
      }
      var lines := Split(text, '\n');
      tasks := [];
      nextId := 1;
      var ok := ReadLines(lines);
      if !ok {
        return Aborted;
      }
      var maxId := MaxLoadedId();
      nextId := Max(nextId, maxId + 1);
      LoadSpecIdsBelowNextId(lines);
      status := Loaded;
    }
  }

  /** One more task line written after the header and the lines before it. */
  lemma SavedTextStep(header: string, ts: seq<Task>, i: nat)
    requires i < |ts|
    ensures FileText([header] + SerializeAll(ts[..i + 1]))
         == FileText([header] + SerializeAll(ts[..i])) + Serialize(ts[i]) + "\n"
  {
    assert ts[..i + 1] == ts[..i] + [ts[i]];
    SerializeAllConcat(ts[..i], [ts[i]]);
    assert [header] + SerializeAll(ts[..i + 1]) == [header] + SerializeAll(ts[..i]) + [Serialize(ts[i])];
    FileTextAppend([header] + SerializeAll(ts[..i]), Serialize(ts[i]));
  }

  lemma SortKeepsValid(s: seq<Task>, r: seq<Task>, n: int)
    requires multiset(r) == multiset(s)
    ensures (forall k :: 0 <= k < |s| ==> s[k].id < n) ==> forall k :: 0 <= k < |r| ==> r[k].id < n
  {
    forall k | 0 <= k < |r|
      ensures r[k] in s
    {
      assert r[k] in multiset(r);
    }
  }

  lemma SerializeAllConcat(a: seq<Task>, b: seq<Task>)
    ensures SerializeAll(a + b) == SerializeAll(a) + SerializeAll(b)
  {
  }
}
