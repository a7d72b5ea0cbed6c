/** Editing a document at a pointer, and what the edit leaves alone. */
module Documents {
  import opened Pointers

  predicate IsPosition(token: string) { Atoi(token).Some? && Atoi(token).value >= 0 }

  /** Tokens that may select the same place: equal, or the same array position. */
  predicate Alias(a: string, b: string)
  {
    a == b || (IsPosition(a) && Atoi(a) == Atoi(b))
  }

  /** Paths that part ways at some token. */
  predicate Apart(p: seq<string>, q: seq<string>)
  {
    exists i :: 0 <= i < |p| && i < |q| && !Alias(p[i], q[i])
  }

  /** In this document the paths take the same steps as long as both go on. */
  predicate Meet(root: Json, p: seq<string>, q: seq<string>)
    decreases |p|
  {
    p == [] || q == [] ||
    match root
    case Object(fields) => p[0] == q[0] && p[0] in fields && Meet(fields[p[0]], p[1..], q[1..])
    case Array(items) =>
      && IsPosition(p[0]) && Atoi(p[0]) == Atoi(q[0]) && Atoi(p[0]).value < |items|
      && Meet(items[Atoi(p[0]).value], p[1..], q[1..])
    case _ => false
  }

  lemma {:induction false} MeetIsNotApart(root: Json, p: seq<string>, q: seq<string>)
    requires Meet(root, p, q)
    ensures !Apart(p, q)
    decreases |p|
  {
    if p != [] && q != [] {
      var next := if root.Object? then root.fields[p[0]] else root.items[Atoi(p[0]).value];
      MeetIsNotApart(next, p[1..], q[1..]);
      hide Meet, IsPosition, Atoi;
      assert forall i :: 1 <= i < |p| && i < |q| ==> p[i] == p[1..][i - 1] && q[i] == q[1..][i - 1];
    }
  }

  /** The first step of a walk that finds its end. */
  lemma FoundFirst(root: Json, tokens: seq<string>)
    requires tokens != [] && Walk(root, tokens).Found?
    ensures root.Object? || root.Array?
    ensures root.Object? ==> tokens[0] in root.fields && Walk(root, tokens) == Walk(root.fields[tokens[0]], tokens[1..])
    ensures root.Array? ==>
              && Atoi(tokens[0]).Some? && 0 <= Atoi(tokens[0]).value < |root.items|
              && Walk(root, tokens) == Walk(root.items[Atoi(tokens[0]).value], tokens[1..])
  {}

  function Put(root: Json, tokens: seq<string>, value: Json): Json
    requires Walk(root, tokens).Found?
    decreases |tokens|
  {
    if tokens == [] then value
    else
      FoundFirst(root, tokens);
      match root
      case Object(fields) => Object(fields[tokens[0] := Put(fields[tokens[0]], tokens[1..], value)])
      case Array(items) =>
        var position := Atoi(tokens[0]).value;
        Array(items[position := Put(items[position], tokens[1..], value)])
      case _ => root
  }

  predicate InObject(root: Json, tokens: seq<string>)
  {
    tokens != [] && Walk(root, tokens[..|tokens| - 1]).Found? && Walk(root, tokens[..|tokens| - 1]).value.Object?
  }

  /** Removes the member of an object that the path selects. */
  function Delete(root: Json, tokens: seq<string>): Json
    requires Walk(root, tokens).Found? && InObject(root, tokens)
    decreases |tokens|
  {
    FoundFirst(root, tokens);
    if |tokens| == 1 then
      assert tokens[..0] == [];
      root.(fields := root.fields - {tokens[0]})
    else
      InObjectRest(root, tokens);
      match root
      case Object(fields) => Object(fields[tokens[0] := Delete(fields[tokens[0]], tokens[1..])])
      case Array(items) =>
        var position := Atoi(tokens[0]).value;
        Array(items[position := Delete(items[position], tokens[1..])])
      case _ => root
  }

  lemma InObjectRest(root: Json, tokens: seq<string>)
    requires |tokens| > 1 && Walk(root, tokens).Found? && InObject(root, tokens)
    ensures root.Object? ==> tokens[0] in root.fields && InObject(root.fields[tokens[0]], tokens[1..])
    ensures root.Array? ==>
              && Atoi(tokens[0]).Some? && 0 <= Atoi(tokens[0]).value < |root.items|
              && InObject(root.items[Atoi(tokens[0]).value], tokens[1..])
  {
    FoundFirst(root, tokens);
    var init := tokens[..|tokens| - 1];
    FoundFirst(root, init);
    assert tokens[1..][..|tokens| - 2] == init[1..];
  }

  /* ---------- what an edit does ---------- */

  lemma {:induction false} WalkPut(root: Json, tokens: seq<string>, value: Json)
    requires Walk(root, tokens).Found?
    ensures Walk(Put(root, tokens, value), tokens) == Found(value)
    decreases |tokens|
  {
    if tokens != [] {
      FoundFirst(root, tokens);
      if root.Object? {
        WalkPut(root.fields[tokens[0]], tokens[1..], value);
      } else {
        WalkPut(root.items[Atoi(tokens[0]).value], tokens[1..], value);
      }
    }
  }

  lemma {:induction false} WalkDelete(root: Json, tokens: seq<string>)
    requires Walk(root, tokens).Found? && InObject(root, tokens)
    ensures Walk(Delete(root, tokens), tokens) == Missing
    decreases |tokens|
  {
    FoundFirst(root, tokens);
    if |tokens| > 1 {
      InObjectRest(root, tokens);
      if root.Object? {
        WalkDelete(root.fields[tokens[0]], tokens[1..]);
      } else {
        WalkDelete(root.items[Atoi(tokens[0]).value], tokens[1..]);
      }
    } else {
      assert tokens[..0] == [];
    }
  }

  /** Where the paths part, an edit at the one leaves the other alone. */
  lemma {:induction false} PutDiverges(root: Json, q: seq<string>, value: Json, p: seq<string>)
    requires Walk(root, q).Found? && !Meet(root, p, q)
    ensures Walk(Put(root, q, value), p) == Walk(root, p)
    decreases |q|
  {
    FoundFirst(root, q);
    if root.Object? {
      if p[0] == q[0] { PutDiverges(root.fields[q[0]], q[1..], value, p[1..]); }
    } else if Atoi(p[0]) == Atoi(q[0]) {
      PutDiverges(root.items[Atoi(q[0]).value], q[1..], value, p[1..]);
    }
  }

  lemma {:induction false} DeleteDiverges(root: Json, q: seq<string>, p: seq<string>)
    requires Walk(root, q).Found? && InObject(root, q) && !Meet(root, p, q)
    ensures Walk(Delete(root, q), p) == Walk(root, p)
    decreases |q|
  {
    FoundFirst(root, q);
    if |q| > 1 {
      InObjectRest(root, q);
      if root.Object? {
        if p[0] == q[0] { DeleteDiverges(root.fields[q[0]], q[1..], p[1..]); }
      } else if Atoi(p[0]) == Atoi(q[0]) {
        DeleteDiverges(root.items[Atoi(q[0]).value], q[1..], p[1..]);
      }
    } else {
      assert q[..0] == [];
    }
  }

  lemma PutKeepsApart(root: Json, q: seq<string>, value: Json, p: seq<string>)
    requires Walk(root, q).Found? && Apart(p, q)
    ensures Walk(Put(root, q, value), p) == Walk(root, p)
  {
    if Meet(root, p, q) { MeetIsNotApart(root, p, q); }
    PutDiverges(root, q, value, p);
  }

  lemma DeleteKeepsApart(root: Json, q: seq<string>, p: seq<string>)
    requires Walk(root, q).Found? && InObject(root, q) && Apart(p, q)
    ensures Walk(Delete(root, q), p) == Walk(root, p)
  {
    if Meet(root, p, q) { MeetIsNotApart(root, p, q); }
    DeleteDiverges(root, q, p);
  }

  /** An edit at or below a place edits what is found there. */
  lemma {:induction false} PutBelow(root: Json, q: seq<string>, value: Json, p: seq<string>)
    requires Walk(root, q).Found? && Meet(root, p, q) && |p| <= |q|
    ensures Walk(root, p).Found? && Walk(Walk(root, p).value, q[|p|..]) == Walk(root, q)
    ensures Walk(Put(root, q, value), p) == Found(Put(Walk(root, p).value, q[|p|..], value))
    decreases |p|
  {
    if p == [] {
      assert q[0..] == q;
    } else {
      FoundFirst(root, q);
      assert q[|p|..] == q[1..][|p| - 1..];
      if root.Object? {
        PutBelow(root.fields[q[0]], q[1..], value, p[1..]);
      } else {
        PutBelow(root.items[Atoi(q[0]).value], q[1..], value, p[1..]);
      }
    }
  }

  lemma {:induction false} DeleteBelow(root: Json, q: seq<string>, p: seq<string>)
    requires Walk(root, q).Found? && InObject(root, q) && Meet(root, p, q) && |p| < |q|
    ensures Walk(root, p).Found? && Walk(Walk(root, p).value, q[|p|..]) == Walk(root, q)
    ensures InObject(Walk(root, p).value, q[|p|..])
    ensures Walk(Delete(root, q), p) == Found(Delete(Walk(root, p).value, q[|p|..]))
    decreases |p|
  {
    if p == [] {
      assert q[0..] == q;
    } else {
      FoundFirst(root, q);
      InObjectRest(root, q);
      assert q[|p|..] == q[1..][|p| - 1..];
      if root.Object? {
        DeleteBelow(root.fields[q[0]], q[1..], p[1..]);
      } else {
        DeleteBelow(root.items[Atoi(q[0]).value], q[1..], p[1..]);
      }
    }
  }

  /** A path that goes on from an edited place goes on from the new value. */
  lemma {:induction false} PutAbove(root: Json, q: seq<string>, value: Json, p: seq<string>)
    requires Walk(root, q).Found? && Meet(root, p, q) && |q| <= |p|
    ensures Walk(root, p) == Walk(Walk(root, q).value, p[|q|..])
    ensures Walk(Put(root, q, value), p) == Walk(value, p[|q|..])
    decreases |q|
  {
    if q == [] {
      assert p[0..] == p;
    } else {
      FoundFirst(root, q);
      assert p[|q|..] == p[1..][|q| - 1..];
      if root.Object? {
        PutAbove(root.fields[q[0]], q[1..], value, p[1..]);
      } else {
        PutAbove(root.items[Atoi(q[0]).value], q[1..], value, p[1..]);
      }
    }
  }

  lemma {:induction false} DeleteAbove(root: Json, q: seq<string>, p: seq<string>)
    requires Walk(root, q).Found? && InObject(root, q) && Meet(root, p, q) && |q| <= |p|
    ensures Walk(Delete(root, q), p) == Missing
    decreases |q|
  {
    FoundFirst(root, q);
    if |q| > 1 {
      InObjectRest(root, q);
      if root.Object? {
        DeleteAbove(root.fields[q[0]], q[1..], p[1..]);
      } else {
        DeleteAbove(root.items[Atoi(q[0]).value], q[1..], p[1..]);
      }
    } else {
      assert q[..0] == [];
    }
  }

  /** A walk goes on from where a shorter one ends. */
  lemma {:induction false} WalkOn(root: Json, p: seq<string>, rest: seq<string>)
    ensures Walk(root, p).Found? ==> Walk(root, p + rest) == Walk(Walk(root, p).value, rest)
    ensures !Walk(root, p).Found? ==> Walk(root, p + rest) == Walk(root, p)
    decreases |p|
  {
    if p == [] {
      assert p + rest == rest;
    } else {
      assert (p + rest)[0] == p[0] && (p + rest)[1..] == p[1..] + rest;
      match root
      case Object(fields) => if p[0] in fields { WalkOn(fields[p[0]], p[1..], rest); }
      case Array(items) =>
        if Atoi(p[0]).Some? && 0 <= Atoi(p[0]).value < |items| { WalkOn(items[Atoi(p[0]).value], p[1..], rest); }
      case _ =>
    }
  }
}
