/** The task list behind the "Day off in Kyoto" context demos: a reducer
    over a list of tasks that appends on `add`, drops every task with the
    given id on `remove`, and empties the list on any other action type. */
module Tasks {
  import opened Seqs

  datatype Task = Task(id: string, name: string)

  /** The dispatched action, by its `type` tag; `Unknown` is any other tag. */
  datatype Action = Add(task: Task) | Remove(id: string) | Unknown(kind: string)

  /** `state.filter(task => id !== task.id)`. */
  function WithoutId(state: seq<Task>, id: string): (r: seq<Task>)
    ensures forall t :: t in r <==> t in state && t.id != id
    ensures IsSubseq(r, state)
  {
    if state == [] then []
    else
      var rest := WithoutId(state[1..], id);
      assert state == [state[0]] + state[1..];
      if state[0].id != id then
        assert ([state[0]] + rest)[1..] == rest;
        [state[0]] + rest
      else
        SubseqSkip(rest, state[0], state[1..]);
        rest
  }

  /** The reducer: `add` grows the list by its task at the end, `remove`
      keeps exactly the tasks with another id, anything else empties it. */
  function Reduce(state: seq<Task>, action: Action): (r: seq<Task>)
    ensures action.Add? ==> |r| == |state| + 1 && r[..|state|] == state && r[|state|] == action.task
    ensures action.Remove? ==> (forall t :: t in r <==> t in state && t.id != action.id) && IsSubseq(r, state)
    ensures action.Unknown? ==> r == []
  {
    match action
    case Add(task) => state + [task]
    case Remove(id) => WithoutId(state, id)
    case Unknown(_) => []
  }

  /** `add` appends the task at the end and keeps every earlier task in place. */
  lemma AddAppends(state: seq<Task>, task: Task)
    ensures var r := Reduce(state, Add(task));
      |r| == |state| + 1 && r[..|state|] == state && r[|state|] == task
  {
  }

  /** `remove` keeps exactly the tasks with another id, each as often as
      before and in their order. */
  lemma {:induction false} RemoveKeepsOthers(state: seq<Task>, id: string)
    ensures var r := Reduce(state, Remove(id));
      && (forall t :: multiset(r)[t] == if t.id == id then 0 else multiset(state)[t])
      && IsSubseq(r, state)
      && (forall t :: t in r ==> t.id != id)
  {
    if state != [] {
      RemoveKeepsOthers(state[1..], id);
      assert state == [state[0]] + state[1..];
    }
  }

  /** Removing an id that no task has leaves the list as it is. */
  lemma {:induction false} RemoveAbsentId(state: seq<Task>, id: string)
    requires forall t :: t in state ==> t.id != id
    ensures Reduce(state, Remove(id)) == state
  {
    if state != [] {
      RemoveAbsentId(state[1..], id);
      assert [state[0]] + state[1..] == state;
    }
  }

  /** A second `remove` of the same id changes nothing. */
  lemma RemoveIdempotent(state: seq<Task>, id: string)
    ensures Reduce(Reduce(state, Remove(id)), Remove(id)) == Reduce(state, Remove(id))
  {
    RemoveAbsentId(WithoutId(state, id), id);
  }

  /** Any other action type resets the list to empty. */
  lemma UnknownClears(state: seq<Task>, kind: string)
    ensures Reduce(state, Unknown(kind)) == []
  {
  }
}
