/** The task list: the record type every other part consumes, and the three
    transitions the list component applies to its state (add, toggle, delete).
    The component replaces its whole list on every change, so each transition
    is a function from the old list to the new one. */
module TodoApp {

  /** A day of the week numbered as JavaScript's Date.getDay numbers it: 0 is Sunday. */
  type Weekday = w: int | 0 <= w < 7

  /** A creation timestamp, seen the two ways the analytics page reads it: the
      calendar day in UTC (days since the Unix epoch; what the date part of
      toISOString names) and the day of the week in the local time zone (what
      getDay returns). The two are independent inputs: near local midnight
      they need not agree. */
  datatype Instant = Instant(utcDay: int, localWeekday: Weekday)

  datatype Todo = Todo(id: string, text: string, completed: bool, createdAt: Instant)

  /** The white-space and line-terminator characters that String.prototype.trim removes
      (the space separators of Unicode category Zs beyond U+00A0 are not listed). */
  predicate IsWhitespace(c: char) {
    c == ' ' || c == '\t' || c == '\n' || c == '\r' || c == '\U{000B}' || c == '\U{000C}'
    || c == '\U{00A0}' || c == '\U{FEFF}' || c == '\U{2028}' || c == '\U{2029}'
  }

  predicate IsBlank(s: string) {
    forall k :: 0 <= k < |s| ==> IsWhitespace(s[k])
  }

  /** Drops leading white space: the result is the longest suffix that does not start with it. */
  function TrimStart(s: string): (r: string)
    ensures |r| <= |s| && r == s[|s| - |r|..]
    ensures IsBlank(s[..|s| - |r|])
    ensures r == [] || !IsWhitespace(r[0])
  {
    if s != [] && IsWhitespace(s[0]) then
      var r := TrimStart(s[1..]);
      assert s[..|s| - |r|] == [s[0]] + s[1..][..|s| - 1 - |r|];
      r
    else s
  }

  /** Drops trailing white space: the result is the longest prefix that does not end with it. */
  function TrimEnd(s: string): (r: string)
    ensures |r| <= |s| && r == s[..|r|]
    ensures IsBlank(s[|r|..])
    ensures r == [] || !IsWhitespace(r[|r| - 1])
  {
    if s != [] && IsWhitespace(s[|s| - 1]) then
      var r := TrimEnd(s[..|s| - 1]);
      assert s[|r|..] == s[..|s| - 1][|r|..] + [s[|s| - 1]];
      r
    else s
  }

  /** String.prototype.trim: the middle slice of `s` left after white space is cut from both ends. */
  function Trim(s: string): (r: string)
    ensures exists i :: 0 <= i <= |s| - |r| && IsBlank(s[..i]) && r == s[i..][..|r|] && IsBlank(s[i..][|r|..])
    ensures r == [] || (!IsWhitespace(r[0]) && !IsWhitespace(r[|r| - 1]))
  {
    var t := TrimStart(s);
    var r := TrimEnd(t);
    MiddleSlice(s, t, r);
    r
  }

  /** A blank-free head cut from a suffix of `s` is a middle slice of `s`. */
  lemma MiddleSlice(s: string, t: string, r: string)
    requires |t| <= |s| && t == s[|s| - |t|..] && IsBlank(s[..|s| - |t|])
    requires |r| <= |t| && r == t[..|r|] && IsBlank(t[|r|..])
    requires t == [] || !IsWhitespace(t[0])
    requires r == [] || !IsWhitespace(r[|r| - 1])
    ensures exists i :: 0 <= i <= |s| - |r| && IsBlank(s[..i]) && r == s[i..][..|r|] && IsBlank(s[i..][|r|..])
    ensures r == [] || (!IsWhitespace(r[0]) && !IsWhitespace(r[|r| - 1]))
  {
    var i := |s| - |t|;
    assert 0 <= i <= |s| - |r| && IsBlank(s[..i]) && r == s[i..][..|r|] && IsBlank(s[i..][|r|..]);
    if r != [] {
      assert r[0] == t[0];
    }
  }

  /** Trimming is empty exactly for blank input: this is the guard of the input form. */
  lemma TrimEmptyIffBlank(s: string)
    ensures Trim(s) == [] <==> IsBlank(s)
  {
    var r := Trim(s);
    var i :| 0 <= i <= |s| - |r| && IsBlank(s[..i]) && r == s[i..][..|r|] && IsBlank(s[i..][|r|..]);
    if r == [] {
      forall k | 0 <= k < |s|
        ensures IsWhitespace(s[k])
      {
        if k < i {
          assert s[k] == s[..i][k];
        } else {
          assert s[k] == s[i..][k - i];
        }
      }
    }
  }

  /** Trimming twice is trimming once. */
  lemma TrimIdempotent(s: string)
    ensures Trim(Trim(s)) == Trim(s)
  {
    var r := Trim(s);
    assert TrimStart(r) == r;
    assert TrimEnd(r) == r;
  }

  /** The number of records whose `completed` flag is set (`completedCount`). */
  function CompletedCount(todos: seq<Todo>): (n: nat)
    ensures n <= |todos|
  {
    if todos == [] then 0
    else CompletedCount(todos[..|todos| - 1]) + (if todos[|todos| - 1].completed then 1 else 0)
  }

  /** The number of records carrying identifier `id`; identifiers are not unique. */
  function CountId(todos: seq<Todo>, id: string): (n: nat)
    ensures n <= |todos|
    ensures n == 0 <==> forall k :: 0 <= k < |todos| ==> todos[k].id != id
  {
    if todos == [] then 0
    else CountId(todos[..|todos| - 1], id) + (if todos[|todos| - 1].id == id then 1 else 0)
  }

  /** The number of completed records carrying identifier `id`. */
  function CompletedWithId(todos: seq<Todo>, id: string): (n: nat)
    ensures n <= CountId(todos, id)
  {
    if todos == [] then 0
    else CompletedWithId(todos[..|todos| - 1], id)
         + (if todos[|todos| - 1].id == id && todos[|todos| - 1].completed then 1 else 0)
  }

  /** `addTodo`: the new record, with trimmed text and not completed, goes in front of the old list. */
  function AddTodo(todos: seq<Todo>, id: string, text: string, now: Instant): (r: seq<Todo>)
    ensures |r| == |todos| + 1 && r[1..] == todos
    ensures r[0].id == id && r[0].text == Trim(text) && !r[0].completed && r[0].createdAt == now
  {
    [Todo(id, Trim(text), false, now)] + todos
  }

  /** `toggleTodo`: every record with a matching identifier has its flag negated; nothing else moves. */
  function ToggleTodo(todos: seq<Todo>, id: string): (r: seq<Todo>)
    ensures |r| == |todos|
    ensures forall k :: 0 <= k < |todos| ==>
              && r[k].id == todos[k].id && r[k].text == todos[k].text
              && r[k].createdAt == todos[k].createdAt
              && r[k].completed == (todos[k].completed != (todos[k].id == id))
  {
    seq(|todos|, k requires 0 <= k < |todos| =>
      if todos[k].id == id then todos[k].(completed := !todos[k].completed) else todos[k])
  }

  /** `a` is `b` with some elements taken out, the rest kept in order. */
  predicate IsSubsequence<T(==)>(a: seq<T>, b: seq<T>)
  {
    if a == [] then true
    else if b == [] then false
    else if a[|a| - 1] == b[|b| - 1] then IsSubsequence(a[..|a| - 1], b[..|b| - 1])
    else IsSubsequence(a, b[..|b| - 1])
  }

  /** `deleteTodo`: the old list with every record of identifier `id` filtered out. */
  function DeleteTodo(todos: seq<Todo>, id: string): (r: seq<Todo>)
    ensures forall k :: 0 <= k < |r| ==> r[k].id != id
    ensures |r| == |todos| - CountId(todos, id)
  {
    if todos == [] then []
    else
      var rest := DeleteTodo(todos[..|todos| - 1], id);
      var last := todos[|todos| - 1];
      if last.id == id then rest else rest + [last]
  }

  /** Deleting takes out the matching records and nothing else: every other record keeps its
      number of occurrences, and the survivors keep their relative order. */
  lemma DeleteKeepsOthers(todos: seq<Todo>, id: string)
    ensures forall t: Todo :: t.id != id ==> multiset(DeleteTodo(todos, id))[t] == multiset(todos)[t]
    ensures IsSubsequence(DeleteTodo(todos, id), todos)
  {
    forall t: Todo | t.id != id
      ensures multiset(DeleteTodo(todos, id))[t] == multiset(todos)[t]
    {
      DeleteKeepsRecord(todos, id, t);
    }
    DeleteIsSubsequence(todos, id);
  }

  lemma {:induction false} DeleteKeepsRecord(todos: seq<Todo>, id: string, t: Todo)
    requires t.id != id
    ensures multiset(DeleteTodo(todos, id))[t] == multiset(todos)[t]
  {
    if todos != [] {
      var init, last := todos[..|todos| - 1], todos[|todos| - 1];
      DeleteKeepsRecord(init, id, t);
      assert todos == init + [last];
      assert multiset(todos) == multiset(init) + multiset{last};
      if last.id != id {
        var rest := DeleteTodo(init, id);
        assert multiset(rest + [last]) == multiset(rest) + multiset{last};
      }
    }
  }

  lemma {:induction false} DeleteIsSubsequence(todos: seq<Todo>, id: string)
    ensures IsSubsequence(DeleteTodo(todos, id), todos)
  {
    if todos != [] {
      var init, last := todos[..|todos| - 1], todos[|todos| - 1];
      DeleteIsSubsequence(init, id);
      var rest := DeleteTodo(init, id);
      if last.id == id {
        assert rest == [] || rest[|rest| - 1] != last;
      } else {
        assert (rest + [last])[..|rest|] == rest;
      }
    }
  }

  /** Adding a record makes the list one longer and leaves the completed count as it was. */
  lemma {:induction false} AddTodoCounts(todos: seq<Todo>, id: string, text: string, now: Instant)
    ensures |AddTodo(todos, id, text, now)| == |todos| + 1
    ensures CompletedCount(AddTodo(todos, id, text, now)) == CompletedCount(todos)
  {
    CompletedCountPrepend(Todo(id, Trim(text), false, now), todos);
  }

  lemma {:induction false} CompletedCountPrepend(t: Todo, todos: seq<Todo>)
    ensures CompletedCount([t] + todos) == CompletedCount(todos) + (if t.completed then 1 else 0)
  {
    if todos != [] {
      var init := todos[..|todos| - 1];
      assert ([t] + todos)[..|todos|] == [t] + init;
      CompletedCountPrepend(t, init);
    }
  }

  /** A record added through the input form, whose guard refuses blank text, has non-empty text. */
  lemma AddedTextNonEmpty(todos: seq<Todo>, id: string, text: string, now: Instant)
    requires !IsBlank(text)
    ensures AddTodo(todos, id, text, now)[0].text != []
  {
    TrimEmptyIffBlank(text);
  }

  /** Toggling the same identifier twice gives back the original list. */
  lemma ToggleInvolution(todos: seq<Todo>, id: string)
    ensures ToggleTodo(ToggleTodo(todos, id), id) == todos
  {
  }

  /** Toggling keeps the list length; the completed count gains every pending match and loses
      every completed match. With a unique identifier it moves by exactly one. */
  lemma {:induction false} ToggleCounts(todos: seq<Todo>, id: string)
    ensures |ToggleTodo(todos, id)| == |todos|
    ensures CompletedCount(ToggleTodo(todos, id))
            == CompletedCount(todos) + CountId(todos, id) - 2 * CompletedWithId(todos, id)
  {
    if todos != [] {
      var init := todos[..|todos| - 1];
      assert ToggleTodo(todos, id)[..|init|] == ToggleTodo(init, id);
      ToggleCounts(init, id);
    }
  }

  /** Deleting an identifier no record carries leaves the list unchanged. */
  lemma {:induction false} DeleteAbsent(todos: seq<Todo>, id: string)
    requires forall k :: 0 <= k < |todos| ==> todos[k].id != id
    ensures DeleteTodo(todos, id) == todos
  {
    if todos != [] {
      DeleteAbsent(todos[..|todos| - 1], id);
    }
  }

  /** Deleting the same identifier twice is deleting it once. */
  lemma DeleteIdempotent(todos: seq<Todo>, id: string)
    ensures DeleteTodo(DeleteTodo(todos, id), id) == DeleteTodo(todos, id)
  {
    DeleteAbsent(DeleteTodo(todos, id), id);
  }

  /** Deleting takes away exactly the completed matches from the completed count. */
  lemma {:induction false} DeleteCompletedCount(todos: seq<Todo>, id: string)
    ensures CompletedCount(DeleteTodo(todos, id)) == CompletedCount(todos) - CompletedWithId(todos, id)
  {
    if todos != [] {
      var init, last := todos[..|todos| - 1], todos[|todos| - 1];
      DeleteCompletedCount(init, id);
      var rest := DeleteTodo(init, id);
      if last.id != id {
        assert (rest + [last])[..|rest|] == rest;
      }
    }
  }
}
