/** The selection list computations both components share: membership by
    `id` (`findIndex`), removal by `id` (`filter`) and the toggle that picks
    between appending and removing. Elements are compared by `id` only,
    never as whole records. */
module Selection {
  import opened Characters

  /** Some element of `value` carries `id`. */
  predicate HasId(value: seq<Character>, id: int) {
    exists i :: 0 <= i < |value| && value[i].id == id
  }

  /** The guard `character && character.id && character.name` of the
      current component: an id of 0 and an empty name are both falsy. */
  predicate IsSelectable(c: Character) {
    c.id != 0 && c.name != ""
  }

  /** `value.findIndex(c => c.id === id)`: the first position holding `id`,
      or -1 when there is none. */
  function FindIndex(value: seq<Character>, id: int): (index: int)
    ensures -1 <= index < |value|
    ensures index == -1 <==> !HasId(value, id)
    ensures 0 <= index ==> value[index].id == id
    ensures forall j :: 0 <= j < index ==> value[j].id != id
  {
    if value == [] then -1
    else if value[0].id == id then 0
    else
      var rest := FindIndex(value[1..], id);
      assert forall j :: 1 <= j < |value| ==> value[j] == value[1..][j - 1];
      if rest == -1 then -1 else rest + 1
  }

  /** `value.filter(c => c.id !== id)`: every element with `id` dropped, the
      others kept. */
  function RemoveById(value: seq<Character>, id: int): (kept: seq<Character>)
    ensures |kept| <= |value|
    ensures forall c :: c in kept <==> c in value && c.id != id
  {
    if value == [] then []
    else if value[0].id == id then RemoveById(value[1..], id)
    else [value[0]] + RemoveById(value[1..], id)
  }

  /** Removing by id works piece by piece, so the kept elements stay in
      their original relative order. */
  lemma {:induction false} RemoveByIdConcat(a: seq<Character>, b: seq<Character>, id: int)
    ensures RemoveById(a + b, id) == RemoveById(a, id) + RemoveById(b, id)
  {
    if a != [] {
      assert (a + b)[0] == a[0];
      assert (a + b)[1..] == a[1..] + b;
      RemoveByIdConcat(a[1..], b, id);
      if a[0].id != id {
        assert RemoveById(a + b, id) == [a[0]] + (RemoveById(a[1..], id) + RemoveById(b, id));
      }
    } else {
      assert a + b == b;
    }
  }

  /** A list that does not hold `id` passes through the filter unchanged. */
  lemma {:induction false} RemoveByIdAbsent(value: seq<Character>, id: int)
    requires !HasId(value, id)
    ensures RemoveById(value, id) == value
  {
    if value != [] {
      assert !HasId(value[1..], id) by {
        forall j | 0 <= j < |value[1..]| ensures value[1..][j].id != id {
          assert value[1..][j] == value[j + 1];
        }
      }
      RemoveByIdAbsent(value[1..], id);
    }
  }

  /** Removing the only element with its id leaves the elements before it
      followed by the elements after it, each in their order. */
  lemma RemoveOnlyOccurrence(before: seq<Character>, c: Character, after: seq<Character>)
    requires !HasId(before, c.id) && !HasId(after, c.id)
    ensures RemoveById(before + [c] + after, c.id) == before + after
  {
    var id := c.id;
    calc {
      RemoveById(before + [c] + after, id);
      { RemoveByIdConcat(before + [c], after, id); }
      RemoveById(before + [c], id) + RemoveById(after, id);
      { RemoveByIdConcat(before, [c], id); }
      RemoveById(before, id) + RemoveById([c], id) + RemoveById(after, id);
      { assert RemoveById([c], id) == []; }
      RemoveById(before, id) + RemoveById(after, id);
      { RemoveByIdAbsent(before, id); RemoveByIdAbsent(after, id); }
      before + after;
    }
  }

  /** The list a toggle of `c` hands to `onChange`: `[...value, c]` when no
      element has `c.id`, else `value` without every element that has it.
      Either way membership of `c.id` flips and no other element comes or
      goes. */
  function Toggled(value: seq<Character>, c: Character): (next: seq<Character>)
    ensures HasId(next, c.id) <==> !HasId(value, c.id)
    ensures !HasId(value, c.id) ==> next == value + [c]
    ensures HasId(value, c.id) ==> next == RemoveById(value, c.id)
    ensures forall x: Character :: x.id != c.id ==> (x in next <==> x in value)
  {
    if FindIndex(value, c.id) == -1 then
      assert (value + [c])[|value|].id == c.id;
      value + [c]
    else RemoveById(value, c.id)
  }

  /** The guard is what keeps a falsy id or name out of the selection: if
      every selected character passes it and so does `c`, every character
      of the toggled list passes it too. */
  lemma ToggleKeepsSelectable(value: seq<Character>, c: Character)
    requires IsSelectable(c)
    requires forall x :: x in value ==> IsSelectable(x)
    ensures forall x :: x in Toggled(value, c) ==> IsSelectable(x)
  {
  }

  /** Toggling a character that is not selected, twice, gives back the
      original selection. */
  lemma ToggleTwiceRestores(value: seq<Character>, c: Character)
    requires !HasId(value, c.id)
    ensures Toggled(Toggled(value, c), c) == value
  {
    RemoveByIdConcat(value, [c], c.id);
    RemoveByIdAbsent(value, c.id);
  }

  /** Toggling `a` then `b` into an empty selection gives `[a, b]`; toggling
      `a` again leaves `[b]`, with `b` where it was. */
  lemma ToggleOrder(a: Character, b: Character)
    requires a.id != b.id
    ensures Toggled(Toggled([], a), b) == [a, b]
    ensures Toggled([a, b], a) == [b]
  {
  }
}
