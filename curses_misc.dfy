/** The colour-pair allocator and the keyboard dispatcher of
    curses_wrapper.py. */
module Curses {
  import opened Input

  /** The keys of `color_map`: the eight named curses colours and -1, the
      terminal's own colour. `get_color` asserts both arguments are keys, so
      the type rules out every other argument. */
  datatype Color = White | Black | Magenta | Cyan | Red | Green | Yellow | Blue | TerminalDefault

  /** A (text, background) colour pair. */
  datatype Shade = Shade(text: Color, bg: Color)

  /** `ColorController`: memoises one curses colour-pair id per pair of
      colours, handing out 1, 2, 3, ... in order of first request. */
  class ColorController {
    var pairs: map<Shade, nat>
    var counter: nat
    /** The pairs in the order they were first requested. */
    ghost var order: seq<Shade>

    /** The ids handed out so far are exactly 1 .. counter - 1, the pair
        requested n-th first holding id n. */
    ghost predicate Valid()
      reads this
    {
      && counter == |order| + 1
      && (forall i :: 0 <= i < |order| ==> order[i] in pairs && pairs[order[i]] == i + 1)
      && (forall s :: s in pairs ==> s in order)
    }

    constructor ()
      ensures Valid() && pairs == map[] && counter == 1
    {
      pairs := map[];
      counter := 1;
      order := [];
    }

    /** Distinct pairs hold distinct ids, all below the counter. */
    lemma IdsDistinct()
      requires Valid()
      ensures forall s :: s in pairs ==> 1 <= pairs[s] < counter
      ensures forall s, t :: s in pairs && t in pairs && s != t ==> pairs[s] != pairs[t]
    {
      forall s | s in pairs
        ensures exists i :: 0 <= i < |order| && order[i] == s
      {
        var i :| 0 <= i < |order| && order[i] == s;
      }
    }

    /** `get_color(text, bg)`: the id already given to the pair, or the next
        one, which is recorded for later calls. */
    method GetColor(text: Color, bg: Color) returns (id: nat)
      requires Valid()
      modifies this
      ensures Valid()
      ensures Shade(text, bg) in pairs && pairs[Shade(text, bg)] == id
      ensures Shade(text, bg) in old(pairs) ==>
        id == old(pairs)[Shade(text, bg)] && pairs == old(pairs) && counter == old(counter)
      ensures Shade(text, bg) !in old(pairs) ==>
        id == old(counter) && pairs == old(pairs)[Shade(text, bg) := id] && counter == old(counter) + 1
    {
      var key := Shade(text, bg);
      if key in pairs {
        id := pairs[key];
      } else {
        pairs := pairs[key := counter];
        order := order + [key];
        counter := counter + 1;
        id := counter - 1;
      }
    }
  }

  /** A keyboard callback, by identity. */
  datatype Callback = Callback(id: nat)

  /** One call `h(k)` made by `getkeys`. */
  datatype Call = Call(key: int, callback: Callback)

  /** `callbacks[k]` on a `defaultdict(set)`. */
  function Lookup(callbacks: map<int, set<Callback>>, k: int): set<Callback> {
    if k in callbacks then callbacks[k] else {}
  }

  /** The key codes (`ord`) of the characters of `keyset`. */
  function Codes(keyset: string): set<int> {
    set c | c in keyset :: c as int
  }

  lemma CodesSnoc(s: string, c: char)
    ensures Codes(s + [c]) == Codes(s) + {c as int}
  {
    forall x | x in Codes(s)
      ensures x in Codes(s + [c])
    {
      var ch :| ch in s && ch as int == x;
      assert ch in s + [c];
    }
    assert c in s + [c];
  }

  /** `KeyboardController`: the callbacks registered under each key code. */
  class KeyboardController {
    var callbacks: map<int, set<Callback>>

    constructor ()
      ensures callbacks == map[]
    {
      callbacks := map[];
    }

    /** `register_keys(keyset, callback)`: adds the callback to the set of
        every key of `keyset`; other keys keep theirs. */
    method RegisterKeys(keyset: string, cb: Callback)
      modifies this
      ensures callbacks.Keys == old(callbacks).Keys + Codes(keyset)
      ensures forall k :: Lookup(callbacks, k) == Lookup(old(callbacks), k) + (if k in Codes(keyset) then {cb} else {})
    {
      callbacks := AddToKeys(callbacks, keyset, cb);
    }

    /** `getkeys`: reads the pending keys into a set, then calls every
        callback registered under each pressed key once, passing the key.
        Returns the calls made, in order. */
    method GetKeys(input: seq<int>) returns (calls: seq<Call>)
      ensures NoRepeats(calls)
      ensures forall c :: c in calls <==> c.key in Pending(input) && c.callback in Lookup(callbacks, c.key)
    {
      var pressed := PressedKeys(input);
      calls := [];
      var todo := pressed;
      while todo != {}
        invariant todo <= pressed
        invariant NoRepeats(calls)
        invariant forall c :: c in calls <==> c.key in pressed - todo && c.callback in Lookup(callbacks, c.key)
        decreases todo
      {
        SomeKey(todo);
        var k :| k in todo;
        calls := CallAll(calls, k, Lookup(callbacks, k));
        todo := todo - {k};
      }
    }
  }

  /** The loop of `register_keys` on the registry `callbacks`. */
  method AddToKeys(callbacks: map<int, set<Callback>>, keyset: string, cb: Callback)
    returns (r: map<int, set<Callback>>)
    ensures r.Keys == callbacks.Keys + Codes(keyset)
    ensures forall k :: Lookup(r, k) == Lookup(callbacks, k) + (if k in Codes(keyset) then {cb} else {})
  {
    r := callbacks;
    var i := 0;
    while i < |keyset|
      invariant 0 <= i <= |keyset|
      invariant r.Keys == callbacks.Keys + Codes(keyset[..i])
      invariant forall k :: Lookup(r, k) == Lookup(callbacks, k) + (if k in Codes(keyset[..i]) then {cb} else {})
    {
      var k := keyset[i] as int;
      assert keyset[..i + 1] == keyset[..i] + [keyset[i]];
      CodesSnoc(keyset[..i], keyset[i]);
      r := r[k := Lookup(r, k) + {cb}];
      i := i + 1;
    }
    assert keyset[..i] == keyset;
  }

  /** The inner loop of `getkeys`: calls every callback of `hs` with key `k`,
      in the set's (unspecified) order. */
  method CallAll(calls: seq<Call>, k: int, hs: set<Callback>) returns (calls': seq<Call>)
    requires NoRepeats(calls)
    requires forall i :: 0 <= i < |calls| ==> calls[i].key != k
    ensures NoRepeats(calls')
    ensures forall c :: c in calls' <==> c in calls || (c.key == k && c.callback in hs)
  {
    calls' := calls;
    var todo := hs;
    while todo != {}
      invariant todo <= hs
      invariant NoRepeats(calls')
      invariant forall c :: c in calls' <==> c in calls || (c.key == k && c.callback in hs - todo)
      decreases todo
    {
      var h :| h in todo;
      assert Call(k, h) !in calls';
      calls' := calls' + [Call(k, h)];
      todo := todo - {h};
    }
  }
}
