/** Keyboard input shared by both engines: `getch` is polled until it
    reports that no key is pending (-1), and the keys read are kept as a set,
    so a key pressed several times is handled once. */
module Input {
  /** The keys `getch` delivers before reporting none pending (-1). */
  function Pending(input: seq<int>): seq<int>
  {
    if input == [] || input[0] == -1 then [] else [input[0]] + Pending(input[1..])
  }

  /** The polling loop: the keys pressed since the last tick, as a set. */
  method PressedKeys(input: seq<int>) returns (pressed: set<int>)
    ensures forall k :: k in pressed <==> k in Pending(input)
  {
    pressed := {};
    var rest := input;
    while rest != [] && rest[0] != -1
      invariant forall k :: k in Pending(input) <==> k in pressed || k in Pending(rest)
      decreases |rest|
    {
      pressed := pressed + {rest[0]};
      rest := rest[1..];
    }
  }

  /** A non-empty set of keys has a key to pick. */
  lemma SomeKey(s: set<int>)
    requires s != {}
    ensures exists k :: k in s
  {
    if forall k :: k !in s {
      assert false;
    }
  }

  /** No element is listed twice. */
  predicate NoRepeats<T(==)>(s: seq<T>) {
    forall i, j :: 0 <= i < j < |s| ==> s[i] != s[j]
  }
}
