/** The Task entity and its status enumeration, with the constraints the
    entity declares on its fields. Every reference-typed field of the Java
    entity may be null, so every field is an Option here. */
module TaskModel {
  import opened Wrappers

  /** The three values of the status enumeration. */
  datatype TaskStatus = Todo | InProgress | Done

  /** A 128-bit identifier, as a UUID is. */
  newtype Uuid = x: int | 0 <= x < 0x1_0000_0000_0000_0000_0000_0000_0000_0000

  datatype Task = Task(
    id: Option<Uuid>,
    title: Option<string>,
    description: Option<string>,
    status: Option<TaskStatus>)

  /** Column length of the description. */
  const MaxDescriptionLength: nat := 1000

  /** The no-argument constructor: every field null except the status,
      whose field initializer is TODO. */
  function NewTask(): Task
  {
    Task(None, None, None, Some(Todo))
  }

  /** The constructor taking title, description and status; the id stays null
      until the task is persisted. */
  function MakeTask(title: Option<string>, description: Option<string>, status: Option<TaskStatus>): Task
  {
    Task(None, title, description, status)
  }

  /** The characters String.trim() removes: every code point up to the space. */
  predicate IsTrimmable(c: char)
  {
    c <= ' '
  }

  /** s without its leading trimmable characters. */
  function TrimStart(s: string): string
  {
    if s != [] && IsTrimmable(s[0]) then TrimStart(s[1..]) else s
  }

  /** s without its trailing trimmable characters. */
  function TrimEnd(s: string): string
  {
    if s != [] && IsTrimmable(s[|s| - 1]) then TrimEnd(s[..|s| - 1]) else s
  }

  /** TrimStart drops a prefix made only of trimmable characters and stops at
      the first character it keeps. */
  lemma {:induction false} TrimStartDropsPrefix(s: string)
    ensures |TrimStart(s)| <= |s| && TrimStart(s) == s[|s| - |TrimStart(s)|..]
    ensures forall i :: 0 <= i < |s| - |TrimStart(s)| ==> IsTrimmable(s[i])
    ensures TrimStart(s) == [] || !IsTrimmable(TrimStart(s)[0])
  {
    if s != [] && IsTrimmable(s[0]) {
      var t := s[1..];
      TrimStartDropsPrefix(t);
      assert TrimStart(s) == TrimStart(t);
      assert t[|t| - |TrimStart(t)|..] == s[|s| - |TrimStart(s)|..];
      forall i | 0 <= i < |s| - |TrimStart(s)| ensures IsTrimmable(s[i]) {
        if i > 0 {
          assert s[i] == t[i - 1];
        }
      }
    }
  }

  /** TrimEnd drops a suffix made only of trimmable characters and stops at
      the last character it keeps. */
  lemma {:induction false} TrimEndDropsSuffix(s: string)
    ensures |TrimEnd(s)| <= |s| && TrimEnd(s) == s[..|TrimEnd(s)|]
    ensures forall i :: |TrimEnd(s)| <= i < |s| ==> IsTrimmable(s[i])
    ensures TrimEnd(s) == [] || !IsTrimmable(TrimEnd(s)[|TrimEnd(s)| - 1])
  {
    if s != [] && IsTrimmable(s[|s| - 1]) {
      var t := s[..|s| - 1];
      TrimEndDropsSuffix(t);
      assert TrimEnd(s) == TrimEnd(t);
      assert t[..|TrimEnd(t)|] == s[..|TrimEnd(s)|];
      forall i | |TrimEnd(s)| <= i < |s| ensures IsTrimmable(s[i]) {
        if i < |s| - 1 {
          assert s[i] == t[i];
        }
      }
    }
  }

  /** Java's String.trim(). */
  function Trim(s: string): string
  {
    TrimEnd(TrimStart(s))
  }

  /** The @NotBlank rule on the title: not null, and not empty once trimmed. */
  predicate NotBlank(title: Option<string>)
  {
    title.Some? && |Trim(title.value)| > 0
  }

  /** The column length of the description: null, or at most 1000 characters. */
  predicate DescriptionFits(description: Option<string>)
  {
    description.None? || |description.value| <= MaxDescriptionLength
  }

  /** The field constraints a task must meet to be persisted: a non-blank
      title, a description that fits its column and a non-null status. */
  predicate Valid(t: Task)
  {
    NotBlank(t.title) && DescriptionFits(t.description) && t.status.Some?
  }

  /** A title is non-blank exactly when it holds a character that trim() keeps. */
  lemma {:induction false} NotBlankIffVisibleChar(s: string)
    ensures NotBlank(Some(s)) <==> exists i :: 0 <= i < |s| && !IsTrimmable(s[i])
  {
    var front := TrimStart(s);
    var r := TrimEnd(front);
    TrimStartDropsPrefix(s);
    TrimEndDropsSuffix(front);
    var d := |s| - |front|;
    if |r| > 0 {
      assert s[d] == front[0];
      assert !IsTrimmable(s[d]);
    } else {
      assert front == [];
    }
  }

  /** The empty title of the controller test and a whitespace-only title are
      blank; a title with surrounding spaces is not. */
  lemma BlankTitles()
    ensures !NotBlank(Some(""))
    ensures !NotBlank(Some(" \t\n"))
    ensures NotBlank(Some("  Buy milk  "))
    ensures !NotBlank(None)
  {
    NotBlankIffVisibleChar(" \t\n");
    NotBlankIffVisibleChar("  Buy milk  ");
    assert !IsTrimmable("  Buy milk  "[2]);
  }

  /** The no-argument constructor leaves the id unset and the status TODO;
      the three-argument one is that default with the three fields assigned,
      so its status argument overrides TODO and its id is unset too. */
  lemma ConstructorDefaults(title: Option<string>, description: Option<string>, status: Option<TaskStatus>)
    ensures NewTask().id == None && NewTask().status == Some(Todo)
    ensures MakeTask(title, description, status)
      == NewTask().(title := title, description := description, status := status)
    ensures MakeTask(title, description, status).id == None
  {
  }
}
