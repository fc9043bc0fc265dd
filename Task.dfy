/** The task record: a shared header (id, title, description, priority,
    done flag) and one of three variants, each with its own extra attribute.
    The C++ class hierarchy with virtual methods becomes one datatype whose
    members match over the variant. */
module Tasks {

  /** The priority enumeration; `ToInt` is the cast `(int)p`. */
  datatype Priority = Low | Medium | High {
    function ToInt(): (v: int)
      ensures 1 <= v <= 3
      ensures (v == 1 <==> this == Low) && (v == 3 <==> this == High)
    {
      match this
      case Low => 1
      case Medium => 2
      case High => 3
    }
  }

  function PriorityToString(p: Priority): (r: string)
    ensures p == Low <==> r == "Low"
    ensures p == Medium <==> r == "Medium"
    ensures p == High <==> r == "High"
  {
    match p
    case Low => "Low"
    case Medium => "Medium"
    case High => "High"
  }

  /** Any integer is clamped into 1..3 and mapped to its priority. */
  function IntToPriority(v: int): (p: Priority)
    ensures 1 <= v <= 3 ==> p.ToInt() == v
    ensures v < 1 ==> p == Low
    ensures v > 3 ==> p == High
  {
    if v <= 1 then Low else if v == 2 then Medium else High
  }

  /** Casting a priority to `int` and back gives it back. */
  lemma IntToPriorityOfToInt(p: Priority)
    ensures IntToPriority(p.ToInt()) == p
  {
  }

  /** Which of the three concrete task classes a task belongs to. */
  datatype Kind = SimpleKind | DeadlineKind | RecurringKind

  /** The per-variant attribute: none, the due date as written, or the
      interval in days. */
  datatype Variant = Simple | Deadline(dueDate: string) | Recurring(intervalDays: int) {
    function Kind(): Kind {
      match this
      case Simple => SimpleKind
      case Deadline(_) => DeadlineKind
      case Recurring(_) => RecurringKind
    }
  }

  /** One task. The datatype constructor plays the part of the C++
      constructors, which only initialise the fields. */
  datatype Task = Task(id: int, title: string, description: string, priority: Priority, done: bool, variant: Variant) {

    function Kind(): Kind {
      variant.Kind()
    }

    /** The display label of the variant. */
    function TypeName(): (r: string)
      ensures Kind() == SimpleKind <==> r == "Simple"
      ensures Kind() == DeadlineKind <==> r == "Deadline"
      ensures Kind() == RecurringKind <==> r == "Recurring"
    {
      match variant
      case Simple => "Simple"
      case Deadline(_) => "Deadline"
      case Recurring(_) => "Recurring"
    }

    function WithTitle(t: string): (r: Task)
      ensures r.title == t && r.(title := title) == this
    {
      this.(title := t)
    }

    function WithDescription(d: string): (r: Task)
      ensures r.description == d && r.(description := description) == this
    {
      this.(description := d)
    }

    function WithPriority(p: Priority): (r: Task)
      ensures r.priority == p && r.(priority := priority) == this
    {
      this.(priority := p)
    }

    function WithDone(d: bool): (r: Task)
      ensures r.done == d && r.(done := done) == this
    {
      this.(done := d)
    }

    /** `toggleDone`: the flag is negated and nothing else changes. */
    function Toggled(): (r: Task)
      ensures r.done == !done && r.(done := done) == this
    {
      this.(done := !done)
    }

    /** `setDueDate`, which only a deadline task has. */
    function WithDueDate(d: string): (r: Task)
      requires variant.Deadline?
      ensures r.variant == Deadline(d) && r.(variant := variant) == this
    {
      this.(variant := Deadline(d))
    }

    /** `setIntervalDays`, which only a recurring task has. */
    function WithIntervalDays(n: int): (r: Task)
      requires variant.Recurring?
      ensures r.variant == Recurring(n) && r.(variant := variant) == this
    {
      this.(variant := Recurring(n))
    }
  }

  /** Toggling twice restores the task. */
  lemma ToggledTwice(t: Task)
    ensures t.Toggled().Toggled() == t
  {
  }

  /** No setter changes the id or the variant's kind: the id is fixed once
      the task is constructed. */
  lemma SettersKeepIdAndKind(t: Task, s: string, p: Priority, b: bool, n: int)
    ensures t.WithTitle(s).id == t.id && t.WithTitle(s).Kind() == t.Kind()
    ensures t.WithDescription(s).id == t.id && t.WithDescription(s).Kind() == t.Kind()
    ensures t.WithPriority(p).id == t.id && t.WithPriority(p).Kind() == t.Kind()
    ensures t.WithDone(b).id == t.id && t.WithDone(b).Kind() == t.Kind()
    ensures t.Toggled().id == t.id && t.Toggled().Kind() == t.Kind()
    ensures t.variant.Deadline? ==> t.WithDueDate(s).id == t.id && t.WithDueDate(s).Kind() == t.Kind()
    ensures t.variant.Recurring? ==> t.WithIntervalDays(n).id == t.id && t.WithIntervalDays(n).Kind() == t.Kind()
  {
  }

  /** A default-constructed task of the given kind: id 0, empty texts,
      Medium priority, not done, an empty due date, an interval of 7 days. */
  function Default(kind: Kind): (t: Task)
    ensures t.Kind() == kind
    ensures t.id == 0 && t.title == [] && t.description == []
    ensures t.priority == Medium && !t.done
    ensures kind == DeadlineKind ==> t.variant.dueDate == []
    ensures kind == RecurringKind ==> t.variant.intervalDays == 7
  {
    var v := match kind
      case SimpleKind => Simple
      case DeadlineKind => Deadline([])
      case RecurringKind => Recurring(7);
    Task(0, [], [], Medium, false, v)
  }
}
