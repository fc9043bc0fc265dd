/** The one-line text form of a task:
    `TYPE|id|done|priority|title|description|extra`, with the title, the
    description and a due date escaped, and its parser. */
module TaskCodec {
  import opened Wrappers
  import opened Ascii
  import opened Numbers
  import opened Utils
  import opened Tasks

  /** The human-readable rendering of the variant attribute. For a
      recurring task the number in the text reads back as the interval. */
  function DetailsLine(t: Task): (r: string)
    ensures t.variant.Simple? ==> r == "(no extra details)"
    ensures t.variant.Deadline? ==> r == "due: " + t.variant.dueDate
    ensures t.variant.Recurring? ==>
      && |r| > 13 && r[..6] == "every " && r[|r| - 7..] == " day(s)"
      && (InInt32(t.variant.intervalDays) ==> StoI(r[6..|r| - 7]) == Some(t.variant.intervalDays))
  {
    match t.variant
    case Simple => "(no extra details)"
    case Deadline(due) => "due: " + due
    case Recurring(n) =>
      var r := "every " + IntToString(n) + " day(s)";
      assert r[6..|r| - 7] == IntToString(n);
      if InInt32(n) then StoIOfIntToString(n); r else r
  }

  /** The record tag written first on the line. */
  function Tag(k: Kind): string {
    match k
    case SimpleKind => "SIMPLE"
    case DeadlineKind => "DEADLINE"
    case RecurringKind => "RECURRING"
  }

  /** The last field: empty for a simple task, the escaped due date, or the
      interval in decimal. */
  function Extra(t: Task): string {
    match t.variant
    case Simple => []
    case Deadline(due) => Escaped(due)
    case Recurring(n) => IntToString(n)
  }

  /** The seven fields of the record, in order. */
  function Fields(t: Task): seq<string> {
    [ Tag(t.Kind()), IntToString(t.id), if t.done then "1" else "0", IntToString(t.priority.ToInt()),
      Escaped(t.title), Escaped(t.description), Extra(t) ]
  }

  /** The texts of the task carry no `|` (before escaping). */
  predicate PipeFree(t: Task) {
    && '|' !in t.title && '|' !in t.description
    && (t.variant.Deadline? ==> '|' !in t.variant.dueDate)
  }

  /** The tag and the three numbers never hold a `|`. */
  lemma HeaderFieldsPipeFree(t: Task)
    ensures forall k :: 0 <= k < 4 ==> '|' !in Fields(t)[k]
  {
    var f := Fields(t);
    forall k | 1 <= k < 4
      ensures '|' !in f[k]
    {
      assert forall j :: 0 <= j < |f[k]| ==> IsDigit(f[k][j]) || f[k][j] == '-';
    }
  }

  lemma FieldsPipeFree(t: Task)
    requires PipeFree(t)
    ensures forall k :: 0 <= k < 7 ==> '|' !in Fields(t)[k]
  {
    HeaderFieldsPipeFree(t);
    EscapedKeepsCharsAndLast(t.title, '|');
    EscapedKeepsCharsAndLast(t.description, '|');
    if t.variant.Deadline? {
      EscapedKeepsCharsAndLast(t.variant.dueDate, '|');
    }
    if t.variant.Recurring? {
      var s := IntToString(t.variant.intervalDays);
      assert forall j :: 0 <= j < |s| ==> IsDigit(s[j]) || s[j] == '-';
    }
  }

  /** `serialize()`: the seven fields joined with `|`. When the texts carry
      no `|`, splitting the line gives the fields back, except that an empty
      last field is lost. */
  function Serialize(t: Task): (r: string)
    ensures |Tag(t.Kind())| < |r| && r[..|Tag(t.Kind())|] == Tag(t.Kind()) && r[|Tag(t.Kind())|] == '|'
    ensures PipeFree(t) ==> Pieces(r, '|') == if Extra(t) == [] then Fields(t)[..6] else Fields(t)
  {
    var f := Fields(t);
    var r := Join(f, '|');
    assert r == f[0] + ['|'] + Join(f[1..], '|');
    if PipeFree(t) then FieldsPipeFree(t); PiecesOfJoin(f, '|'); r else r
  }

  /** What `deserialize` gives: a task, a null pointer, or an exception
      thrown by `std::stoi`. */
  datatype Parsed = Produced(task: Task) | NoTask | ParseError

  /** The kind a record tag names; the match is exact and case-sensitive. */
  function KindOfTag(tag: string): (r: Option<Kind>)
    ensures r.Some? ==> Tag(r.value) == tag
    ensures r.None? ==> forall k: Kind :: Tag(k) != tag
  {
    if tag == "SIMPLE" then Some(SimpleKind)
    else if tag == "DEADLINE" then Some(DeadlineKind)
    else if tag == "RECURRING" then Some(RecurringKind)
    else None
  }

  /** `Task::deserialize(line)`. The line is split on `|` before anything is
      unescaped; fewer than seven pieces give no task; the three integers are
      parsed before the tag is looked at; an unknown tag gives no task; a
      recurring record with an empty extra field gets 7 days. */
  function Deserialize(line: string): Parsed
  {
    var parts := Pieces(line, '|');
    if |parts| < 7 then NoTask
    else
      var id := StoI(parts[1]);
      var done := StoI(parts[2]);
      var pr := StoI(parts[3]);
      if id.None? || done.None? || pr.None? then ParseError
      else
        var title := Unescaped(parts[4]);
        var desc := Unescaped(parts[5]);
        var extra := Unescaped(parts[6]);
        var header := Task(id.value, title, desc, IntToPriority(pr.value), done.value != 0, Simple);
        match KindOfTag(parts[0])
        case None => NoTask
        case Some(SimpleKind) => Produced(header)
        case Some(DeadlineKind) => Produced(header.(variant := Deadline(extra)))
        case Some(RecurringKind) =>
          if extra == [] then Produced(header.(variant := Recurring(7)))
          else match StoI(extra)
            case None => ParseError
            case Some(n) => Produced(header.(variant := Recurring(n)))
  }

  /** What `deserialize` gives, case by case: no task for fewer than seven
      pieces, or for an unknown tag once the three integers have parsed; an
      error when one of them does not parse, or a recurring interval does
      not; otherwise a task read field by field. */
  lemma DeserializeCases(line: string)
    ensures |Pieces(line, '|')| < 7 ==> Deserialize(line) == NoTask
    ensures var r := Deserialize(line); r.Produced? ==>
      var parts := Pieces(line, '|');
      && |parts| >= 7
      && KindOfTag(parts[0]) == Some(r.task.Kind())
      && StoI(parts[1]) == Some(r.task.id)
      && StoI(parts[2]).Some? && (r.task.done <==> StoI(parts[2]).value != 0)
      && StoI(parts[3]).Some? && r.task.priority == IntToPriority(StoI(parts[3]).value)
      && r.task.title == Unescaped(parts[4])
      && r.task.description == Unescaped(parts[5])
      && (r.task.variant.Deadline? ==> r.task.variant.dueDate == Unescaped(parts[6]))
      && (r.task.variant.Recurring? ==>
            if Unescaped(parts[6]) == [] then r.task.variant.intervalDays == 7
            else StoI(Unescaped(parts[6])) == Some(r.task.variant.intervalDays))
    ensures Deserialize(line) == NoTask ==>
      var parts := Pieces(line, '|');
      |parts| < 7 || (StoI(parts[1]).Some? && StoI(parts[2]).Some? && StoI(parts[3]).Some?
                      && KindOfTag(parts[0]).None?)
    ensures Deserialize(line) == ParseError ==>
      var parts := Pieces(line, '|');
      && |parts| >= 7
      && (|| StoI(parts[1]).None? || StoI(parts[2]).None? || StoI(parts[3]).None?
          || (KindOfTag(parts[0]) == Some(RecurringKind) && Unescaped(parts[6]) != []
              && StoI(Unescaped(parts[6])).None?))
  {
  }

  /** A task whose line keeps all seven fields: a recurring task, or a
      deadline task with a due date. */
  predicate HasExtra(t: Task) {
    t.variant.Recurring? || (t.variant.Deadline? && t.variant.dueDate != [])
  }

  lemma ExtraEmptyIff(t: Task)
    ensures Extra(t) == [] <==> !HasExtra(t)
  {
    if t.variant.Deadline? && t.variant.dueDate != [] {
      EscapedKeepsCharsAndLast(t.variant.dueDate, '|');
    }
  }

  lemma ReadBackFlags(t: Task)
    requires InInt32(t.id)
    ensures StoI(IntToString(t.id)) == Some(t.id)
    ensures StoI(if t.done then "1" else "0") == Some(if t.done then 1 else 0)
    ensures StoI(IntToString(t.priority.ToInt())) == Some(t.priority.ToInt())
  {
    StoIOfIntToString(t.id);
    StoIOfIntToString(t.priority.ToInt());
    StoIOfIntToString(0);
    StoIOfIntToString(1);
    assert IntToString(0) == "0" && IntToString(1) == "1";
  }

  lemma KindOfTagOfTag(k: Kind)
    ensures KindOfTag(Tag(k)) == Some(k)
  {
  }

  /** The pieces a line must split into for `Task::deserialize` to give
      back `t`. */
  predicate ReadsBackAs(parts: seq<string>, t: Task) {
    && |parts| >= 7
    && parts[0] == Tag(t.Kind())
    && StoI(parts[1]) == Some(t.id)
    && StoI(parts[2]) == Some(if t.done then 1 else 0)
    && StoI(parts[3]) == Some(t.priority.ToInt())
    && Unescaped(parts[4]) == t.title
    && Unescaped(parts[5]) == t.description
    && (t.variant.Deadline? ==> Unescaped(parts[6]) == t.variant.dueDate)
    && (t.variant.Recurring? ==>
          if Unescaped(parts[6]) == [] then t.variant.intervalDays == 7
          else StoI(Unescaped(parts[6])) == Some(t.variant.intervalDays))
  }

  /** A line whose pieces read back as `t` is deserialized to `t`. */
  lemma ReadRecord(line: string, t: Task)
    requires ReadsBackAs(Pieces(line, '|'), t)
    ensures Deserialize(line) == Produced(t)
  {
    KindOfTagOfTag(t.Kind());
    IntToPriorityOfToInt(t.priority);
    var parts := Pieces(line, '|');
    assert (StoI(parts[2]).value != 0) == t.done;
  }

  /** Round trip: a deadline task with a due date, or a recurring task,
      whose id and interval fit an `int` and whose texts carry no `|`, is
      read back exactly from its line. */
  lemma {:induction false} DeserializeSerialize(t: Task)
    requires InInt32(t.id) && PipeFree(t) && HasExtra(t)
    requires t.variant.Recurring? ==> InInt32(t.variant.intervalDays)
    ensures Deserialize(Serialize(t)) == Produced(t)
  {
    SerializedReadsBack(t);
    ReadRecord(Serialize(t), t);
  }

  /** The pieces of the line of such a task read back as the task. */
  lemma SerializedReadsBack(t: Task)
    requires InInt32(t.id) && PipeFree(t) && HasExtra(t)
    requires t.variant.Recurring? ==> InInt32(t.variant.intervalDays)
    ensures ReadsBackAs(Pieces(Serialize(t), '|'), t)
  {
    ExtraEmptyIff(t);
    assert Pieces(Serialize(t), '|') == Fields(t);
    FieldsReadBack(t);
  }

  /** The seven fields of such a task read back as the task. */
  lemma FieldsReadBack(t: Task)
    requires InInt32(t.id) && HasExtra(t)
    requires t.variant.Recurring? ==> InInt32(t.variant.intervalDays)
    ensures ReadsBackAs(Fields(t), t)
  {
    HeaderReadsBack(t);
    ExtraReadsBack(t);
  }

  /** The tag, the three numbers and the two texts read back. */
  lemma HeaderReadsBack(t: Task)
    requires InInt32(t.id)
    ensures var f := Fields(t);
      && f[0] == Tag(t.Kind())
      && StoI(f[1]) == Some(t.id)
      && StoI(f[2]) == Some(if t.done then 1 else 0)
      && StoI(f[3]) == Some(t.priority.ToInt())
      && Unescaped(f[4]) == t.title
      && Unescaped(f[5]) == t.description
  {
    var f := Fields(t);
    ReadBackFlags(t);
    UnescapeEscape(t.title);
    UnescapeEscape(t.description);
    assert f[1] == IntToString(t.id) && f[3] == IntToString(t.priority.ToInt());
    assert f[2] == if t.done then "1" else "0";
  }

  /** The due date, or the interval, reads back from the last field. */
  lemma ExtraReadsBack(t: Task)
    requires t.variant.Recurring? ==> InInt32(t.variant.intervalDays)
    ensures t.variant.Deadline? ==> Unescaped(Extra(t)) == t.variant.dueDate
    ensures t.variant.Recurring? ==>
              Unescaped(Extra(t)) != [] && StoI(Unescaped(Extra(t))) == Some(t.variant.intervalDays)
  {
    match t.variant
    case Simple =>
    case Deadline(due) =>
      UnescapeEscape(due);
    case Recurring(n) =>
      var s := IntToString(n);
      assert forall j :: 0 <= j < |s| ==> s[j] != '\\';
      UnescapedWithoutBackslash(s);
      StoIOfIntToString(n);
  }

  /** A simple task, or a deadline task with an empty due date, ends its line
      with `|`; the split loses the empty last field and nothing is read
      back. */
  lemma {:induction false} DeserializeSerializeDropsEmptyExtra(t: Task)
    requires PipeFree(t) && !HasExtra(t)
    ensures Deserialize(Serialize(t)) == NoTask
  {
    ExtraEmptyIff(t);
    assert |Pieces(Serialize(t), '|')| == 6;
  }

  /** The line starts with the tag and ends with the last character of the
      extra field, or with the `|` before an empty one. */
  lemma SerializeEnds(t: Task)
    ensures var r := Serialize(t);
      && r[0] == Tag(t.Kind())[0]
      && r[|r| - 1] == if Extra(t) == [] then '|' else Extra(t)[|Extra(t)| - 1]
  {
    JoinLast(Fields(t), '|');
  }

  /** No text of the task holds a line break, and no field of its line does. */
  predicate NewlineFree(t: Task) {
    && '\n' !in t.title && '\n' !in t.description
    && (t.variant.Deadline? ==> '\n' !in t.variant.dueDate)
  }

  /** The line holds a line break only when a text of the task does, so
      a saved task takes exactly one line of the file. */
  lemma SerializeNewlineFree(t: Task)
    requires NewlineFree(t)
    ensures '\n' !in Serialize(t)
  {
    var f := Fields(t);
    forall k | 0 <= k < 7
      ensures '\n' !in f[k]
    {
      if k == 4 {
        EscapedKeepsCharsAndLast(t.title, '\n');
      } else if k == 5 {
        EscapedKeepsCharsAndLast(t.description, '\n');
      } else if k == 6 && t.variant.Deadline? {
        EscapedKeepsCharsAndLast(t.variant.dueDate, '\n');
      } else if k != 0 {
        assert forall j :: 0 <= j < |f[k]| ==> IsDigit(f[k][j]) || f[k][j] == '-';
      }
    }
    JoinHolds(f, '|', '\n');
  }

  /** A `|` inside a field joins exactly like a field boundary. */
  lemma {:induction false} JoinSplice(pre: seq<string>, x: string, y: string, post: seq<string>, d: char)
    ensures Join(pre + [x + [d] + y] + post, d) == Join(pre + [x, y] + post, d)
  {
    if pre == [] {
      assert pre + [x + [d] + y] + post == [x + [d] + y] + post;
      assert pre + [x, y] + post == [x] + ([y] + post);
      assert ([x] + ([y] + post))[1..] == [y] + post;
      if post != [] {
        assert ([y] + post)[1..] == post;
      }
    } else {
      JoinSplice(pre[1..], x, y, post, d);
      assert (pre + [x + [d] + y] + post)[1..] == pre[1..] + [x + [d] + y] + post;
      assert (pre + [x, y] + post)[1..] == pre[1..] + [x, y] + post;
    }
  }

  /** Unescaping stops at a lone `\` at the end and keeps it. */
  lemma UnescapeEscapeThenBackslash(a: string)
    ensures Unescaped(Escaped(a) + "\\") == a + "\\"
  {
    UnescapedAfterEscaped(a, "\\");
    assert Unescaped("\\") == "\\";
  }

  lemma EscapedAroundPipe(a: string, b: string)
    ensures Escaped(a + "|" + b) == (Escaped(a) + "\\") + ['|'] + Escaped(b)
  {
    assert a + "|" + b == a + ("|" + b);
    EscapedConcat(a, "|" + b);
    EscapedConcat("|", b);
    assert Escaped("|") == "\\" + ['|'];
    var ea, eb := Escaped(a), Escaped(b);
    ConcatAssoc("\\", ['|'], eb);
    ConcatAssoc(ea, "\\", ['|'] + eb);
    ConcatAssoc(ea + "\\", ['|'], eb);
  }

  /** The pieces the line of a simple task splits into when its title is
      `a|b`: the `|` escaped inside the title still separates two pieces. */
  function ShiftedPieces(t: Task, a: string, b: string): seq<string> {
    var f := Fields(t);
    [f[0], f[1], f[2], f[3], Escaped(a) + "\\", Escaped(b), Escaped(t.description), []]
  }

  lemma LineOfPipeInTitle(t: Task, a: string, b: string)
    requires t.variant.Simple? && t.title == a + "|" + b
    ensures Serialize(t) == Join(ShiftedPieces(t, a, b), '|')
  {
    var f := Fields(t);
    var ea := Escaped(a) + "\\";
    var eb := Escaped(b);
    var ec := Escaped(t.description);
    EscapedAroundPipe(a, b);
    assert f == f[..4] + [ea + ['|'] + eb] + [ec, []];
    JoinSplice(f[..4], ea, eb, [ec, []], '|');
    assert f[..4] + [ea, eb] + [ec, []] == ShiftedPieces(t, a, b);
  }

  /** The split of the line of a simple task whose title holds one `|`:
      eight pieces, the last one empty and dropped. */
  lemma SplitOfPipeInTitle(t: Task, a: string, b: string)
    requires t.variant.Simple? && t.title == a + "|" + b
    requires '|' !in a && '|' !in b && '|' !in t.description
    ensures Pieces(Serialize(t), '|') == ShiftedPieces(t, a, b)[..7]
  {
    var shifted := ShiftedPieces(t, a, b);
    LineOfPipeInTitle(t, a, b);
    ShiftedPiecesPipeFree(t, a, b);
    PiecesOfJoin(shifted, '|');
  }

  lemma ShiftedPiecesPipeFree(t: Task, a: string, b: string)
    requires '|' !in a && '|' !in b && '|' !in t.description
    ensures forall k :: 0 <= k < 8 ==> '|' !in ShiftedPieces(t, a, b)[k]
  {
    var shifted := ShiftedPieces(t, a, b);
    HeaderFieldsPipeFree(t);
    EscapedKeepsCharsAndLast(a, '|');
    EscapedKeepsCharsAndLast(b, '|');
    EscapedKeepsCharsAndLast(t.description, '|');
    var f := Fields(t);
    forall k | 0 <= k < 8
      ensures '|' !in shifted[k]
    {
      if k < 4 {
        assert shifted[k] == f[k];
      } else if k == 4 {
        assert shifted[4] == Escaped(a) + "\\";
      } else if k == 5 {
        assert shifted[5] == Escaped(b);
      } else if k == 6 {
        assert shifted[6] == Escaped(t.description);
      }
    }
  }

  /** A `|` in the title of a simple task is escaped but still splits the
      line, so the fields shift: the title comes back as the part before the
      `|` followed by a lone `\`, the description as the part after it, and
      the real description is taken for the ignored extra field. */
  lemma EscapedPipeShiftsFields(id: int, a: string, b: string, c: string, p: Priority, done: bool)
    requires InInt32(id) && '|' !in a && '|' !in b && '|' !in c
    ensures Deserialize(Serialize(Task(id, a + "|" + b, c, p, done, Simple)))
         == Produced(Task(id, a + "\\", b, p, done, Simple))
  {
    var t := Task(id, a + "|" + b, c, p, done, Simple);
    SplitOfPipeInTitle(t, a, b);
    var parts := ShiftedPieces(t, a, b)[..7];
    assert parts[1] == IntToString(id) && parts[4] == Escaped(a) + "\\" && parts[5] == Escaped(b);
    ReadBackFlags(t);
    UnescapeEscapeThenBackslash(a);
    UnescapeEscape(b);
    ReadRecord(Serialize(t), Task(id, a + "\\", b, p, done, Simple));
  }

  /** A record of seven pipe-free fields whose last field is empty, such
      as `RECURRING|9|0|2|Water plants||`, ends in `|`; the split drops the
      empty last piece, leaving six, so no task is produced and the default
      interval of 7 days is never reached from a line of this shape. */
  lemma LineWithEmptyLastField(fields: seq<string>)
    requires |fields| == 7 && fields[6] == []
    requires forall k :: 0 <= k < 7 ==> '|' !in fields[k]
    ensures Deserialize(Join(fields, '|')) == NoTask
  {
    PiecesOfJoin(fields, '|');
    DeserializeCases(Join(fields, '|'));
  }
}
