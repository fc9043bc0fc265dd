/** The two orders the store sorts by (the comparator lambdas of
    `sortByPriorityThenId` and `sortByTitle`), and a sort proved to produce a
    sorted permutation, which is all `std::sort` promises. */
module TaskOrder {
  import opened Utils
  import opened Tasks

  /** `std::string::operator<`: lexicographic, character by character, a
      proper prefix coming first. */
  predicate LexLess(a: string, b: string) {
    if b == [] then false
    else if a == [] then true
    else if a[0] != b[0] then a[0] < b[0]
    else LexLess(a[1..], b[1..])
  }

  lemma {:induction false} LexLessIrreflexive(a: string)
    ensures !LexLess(a, a)
  {
    if a != [] {
      LexLessIrreflexive(a[1..]);
    }
  }

  lemma {:induction false} LexLessTransitive(a: string, b: string, c: string)
    requires LexLess(a, b) && LexLess(b, c)
    ensures LexLess(a, c)
  {
    if a != [] && a[0] == b[0] && b[0] == c[0] {
      LexLessTransitive(a[1..], b[1..], c[1..]);
    }
  }

  /** Two different strings are always ordered one way or the other. */
  lemma {:induction false} LexLessTotal(a: string, b: string)
    requires a != b
    ensures LexLess(a, b) || LexLess(b, a)
  {
    if a != [] && b != [] && a[0] == b[0] {
      assert a == [a[0]] + a[1..] && b == [b[0]] + b[1..];
      LexLessTotal(a[1..], b[1..]);
    }
  }

  datatype Ordering = ByPriorityThenId | ByTitle

  /** The comparator: does `a` go strictly before `b`? By priority, higher
      first, then by id, smaller first; or by lower-cased title. */
  predicate Before(o: Ordering, a: Task, b: Task) {
    match o
    case ByPriorityThenId =>
      a.priority.ToInt() > b.priority.ToInt()
      || (a.priority.ToInt() == b.priority.ToInt() && a.id < b.id)
    case ByTitle => LexLess(Lowered(a.title), Lowered(b.title))
  }

  /** No later element goes strictly before an earlier one. */
  ghost predicate SortedBy(o: Ordering, s: seq<Task>) {
    forall i, j :: 0 <= i < j < |s| ==> !Before(o, s[j], s[i])
  }

  lemma BeforeAsymmetric(o: Ordering, a: Task, b: Task)
    requires Before(o, a, b)
    ensures !Before(o, b, a)
  {
    if o == ByTitle && LexLess(Lowered(b.title), Lowered(a.title)) {
      LexLessTransitive(Lowered(a.title), Lowered(b.title), Lowered(a.title));
      LexLessIrreflexive(Lowered(a.title));
    }
  }

  /** "Not after" is transitive: the comparators are strict weak orders, as
      `std::sort` demands. */
  lemma NotBeforeTransitive(o: Ordering, a: Task, b: Task, c: Task)
    requires !Before(o, b, a) && !Before(o, c, b)
    ensures !Before(o, c, a)
  {
    if o == ByTitle {
      var la, lb, lc := Lowered(a.title), Lowered(b.title), Lowered(c.title);
      if LexLess(lc, la) {
        if lb != la {
          LexLessTotal(la, lb);
          LexLessTransitive(lc, la, lb);
        }
      }
    }
  }

  /** Inserts `x` before the first element that does not go strictly before it. */
  function Insert(o: Ordering, x: Task, s: seq<Task>): seq<Task> {
    if s == [] || !Before(o, s[0], x) then [x] + s else [s[0]] + Insert(o, x, s[1..])
  }

  function SortBy(o: Ordering, s: seq<Task>): seq<Task> {
    if s == [] then [] else Insert(o, s[0], SortBy(o, s[1..]))
  }

  lemma {:induction false} InsertPermutes(o: Ordering, x: Task, s: seq<Task>)
    ensures multiset(Insert(o, x, s)) == multiset(s) + multiset{x}
  {
    if s != [] && Before(o, s[0], x) {
      InsertPermutes(o, x, s[1..]);
      assert s == [s[0]] + s[1..];
    }
  }

  /** An element that no later element goes before can head a sorted sequence. */
  lemma SortedCons(o: Ordering, a: Task, s: seq<Task>)
    requires SortedBy(o, s)
    requires forall j :: 0 <= j < |s| ==> !Before(o, s[j], a)
    ensures SortedBy(o, [a] + s)
  {
    var r := [a] + s;
    forall i, j | 0 <= i < j < |r|
      ensures !Before(o, r[j], r[i])
    {
      assert r[j] == s[j - 1];
      if i > 0 {
        assert r[i] == s[i - 1];
      }
    }
  }

  lemma SortedTail(o: Ordering, s: seq<Task>)
    requires s != [] && SortedBy(o, s)
    ensures SortedBy(o, s[1..])
  {
    forall i, j | 0 <= i < j < |s| - 1
      ensures !Before(o, s[1..][j], s[1..][i])
    {
      assert s[1..][j] == s[j + 1] && s[1..][i] == s[i + 1];
    }
  }

  lemma {:induction false} InsertSorted(o: Ordering, x: Task, s: seq<Task>)
    requires SortedBy(o, s)
    ensures SortedBy(o, Insert(o, x, s))
  {
    if s == [] {
      assert Insert(o, x, s) == [x];
    } else if !Before(o, s[0], x) {
      forall j | 0 <= j < |s|
        ensures !Before(o, s[j], x)
      {
        if j > 0 {
          NotBeforeTransitive(o, x, s[0], s[j]);
        }
      }
      SortedCons(o, x, s);
    } else {
      SortedTail(o, s);
      InsertSorted(o, x, s[1..]);
      InsertPermutes(o, x, s[1..]);
      var rest := Insert(o, x, s[1..]);
      forall j | 0 <= j < |rest|
        ensures !Before(o, rest[j], s[0])
      {
        assert rest[j] in multiset(rest);
        if rest[j] == x {
          BeforeAsymmetric(o, s[0], x);
        } else {
          assert rest[j] in multiset(s[1..]);
          var k :| 0 <= k < |s[1..]| && s[1..][k] == rest[j];
          assert s[k + 1] == rest[j];
        }
      }
      SortedCons(o, s[0], rest);
    }
  }

  /** The sort returns a sorted permutation of its input. */
  lemma {:induction false} SortBySortsAndPermutes(o: Ordering, s: seq<Task>)
    ensures SortedBy(o, SortBy(o, s))
    ensures multiset(SortBy(o, s)) == multiset(s)
  {
    if s != [] {
      SortBySortsAndPermutes(o, s[1..]);
      InsertSorted(o, s[0], SortBy(o, s[1..]));
      InsertPermutes(o, s[0], SortBy(o, s[1..]));
      assert s == [s[0]] + s[1..];
    }
  }
}
