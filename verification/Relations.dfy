/** Relationship updates, their compensation, set differences, and the names of role
    permissions (internal/query/relations.go). */
module Relations {
  import opened Types
  import opened Rbac
  import opened Permissions

  // ---------- updates and compensation ----------

  datatype Operation = Unspecified | Create | Touch | Delete

  datatype Update = Update(op: Operation, tuple: Tuple)

  /** One step of a write; the relationship store applies a whole list atomically. */
  function ApplyOne(g: Graph, u: Update): Graph {
    match u.op
    case Create => g + {u.tuple}
    case Touch => g + {u.tuple}
    case Delete => g - {u.tuple}
    case Unspecified => g
  }

  function Apply(g: Graph, us: seq<Update>): Graph {
    if us == [] then g else ApplyOne(Apply(g, us[..|us| - 1]), us[|us| - 1])
  }

  function Inverse(u: Update): seq<Update> {
    match u.op
    case Create => [Update(Delete, u.tuple)]
    case Touch => [Update(Delete, u.tuple)]
    case Delete => [Update(Touch, u.tuple)]
    case Unspecified => []
  }

  /** The inverted updates, last first. */
  function Compensation(us: seq<Update>): seq<Update> {
    if us == [] then [] else Inverse(us[|us| - 1]) + Compensation(us[..|us| - 1])
  }

  /** Every step of the list changes the graph it meets. */
  predicate Effective(g: Graph, us: seq<Update>) {
    us == [] ||
    (&& Effective(g, us[..|us| - 1])
     && us[|us| - 1].op != Unspecified
     && (us[|us| - 1].tuple in Apply(g, us[..|us| - 1]) <==> us[|us| - 1].op == Delete))
  }

  method RollbackUpdates(us: seq<Update>) returns (rollbacks: seq<Update>)
    ensures rollbacks == Compensation(us)
  {
    rollbacks := [];
    assert us[..|us|] == us;
    for i := 0 to |us|
      invariant Compensation(us) == rollbacks + Compensation(us[..|us| - i])
    {
      var u := us[|us| - i - 1];
      ghost var rest := Compensation(us[..|us| - i - 1]);
      assert us[..|us| - i][..|us| - i - 1] == us[..|us| - i - 1];
      assert Compensation(us[..|us| - i]) == Inverse(u) + rest;
      assert Compensation(us) == (rollbacks + Inverse(u)) + rest;
      if u.op == Unspecified {
        assert rollbacks + Inverse(u) == rollbacks;
        continue;
      }
      var op := if u.op == Delete then Touch else Delete;
      rollbacks := rollbacks + [Update(op, u.tuple)];
    }
  }

  lemma {:induction false} ApplyAppends(g: Graph, us: seq<Update>, vs: seq<Update>)
    ensures Apply(g, us + vs) == Apply(Apply(g, us), vs)
  {
    if vs == [] {
      assert us + vs == us;
    } else {
      ApplyAppends(g, us, vs[..|vs| - 1]);
      assert (us + vs)[..|us + vs| - 1] == us + vs[..|vs| - 1];
    }
  }

  /** Compensation undoes an effective list. */
  lemma {:induction false} CompensationRestores(g: Graph, us: seq<Update>)
    requires Effective(g, us)
    ensures Apply(Apply(g, us), Compensation(us)) == g
  {
    if us != [] {
      var init, u := us[..|us| - 1], us[|us| - 1];
      var before := Apply(g, init);
      CompensationRestores(g, init);
      ApplyAppends(ApplyOne(before, u), Inverse(u), Compensation(init));
      var inverse := Inverse(u);
      assert |inverse| == 1 && inverse[..0] == [];
      assert Apply(ApplyOne(before, u), inverse) == ApplyOne(ApplyOne(before, u), inverse[0]);
      assert ApplyOne(ApplyOne(before, u), inverse[0]) == before;
    }
  }

  /** What the list says last about a tuple, if anything: present or absent. */
  function LastWord(us: seq<Update>, t: Tuple): Option<bool> {
    if us == [] then None else
      var u := us[|us| - 1];
      if u.tuple == t && u.op != Unspecified then Some(u.op != Delete) else LastWord(us[..|us| - 1], t)
  }

  lemma {:induction false} LastWordDecides(g: Graph, us: seq<Update>, t: Tuple)
    ensures t in Apply(g, us) <==> (match LastWord(us, t) case Some(present) => present case None => t in g)
  {
    if us != [] {
      LastWordDecides(g, us[..|us| - 1], t);
    }
  }

  /** Applying a list twice is applying it once: a second compensation does no harm. */
  lemma ApplyTwice(g: Graph, us: seq<Update>)
    ensures Apply(Apply(g, us), us) == Apply(g, us)
  {
    forall t
      ensures t in Apply(Apply(g, us), us) <==> t in Apply(g, us)
    {
      LastWordDecides(g, us, t);
      LastWordDecides(Apply(g, us), us, t);
    }
  }

  /** What the list says first about a tuple. */
  function FirstWord(us: seq<Update>, t: Tuple): Option<bool> {
    if us == [] then None else
      match FirstWord(us[..|us| - 1], t)
      case Some(present) => Some(present)
      case None =>
        var u := us[|us| - 1];
        if u.tuple == t && u.op != Unspecified then Some(u.op != Delete) else None
  }

  lemma {:induction false} LastWordOfAppended(us: seq<Update>, vs: seq<Update>, t: Tuple)
    ensures LastWord(us + vs, t) == if LastWord(vs, t).Some? then LastWord(vs, t) else LastWord(us, t)
  {
    if vs == [] {
      assert us + vs == us;
    } else {
      assert (us + vs)[..|us + vs| - 1] == us + vs[..|vs| - 1];
      LastWordOfAppended(us, vs[..|vs| - 1], t);
    }
  }

  /** The compensation contradicts, in the end, the first word of the list. */
  lemma {:induction false} CompensationContradicts(us: seq<Update>, t: Tuple)
    ensures LastWord(Compensation(us), t) ==
      match FirstWord(us, t) case Some(present) => Some(!present) case None => None
  {
    if us != [] {
      var u := us[|us| - 1];
      CompensationContradicts(us[..|us| - 1], t);
      LastWordOfAppended(Inverse(u), Compensation(us[..|us| - 1]), t);
      assert LastWord([], t) == None;
      if u.op != Unspecified {
        assert Inverse(u)[..0] == [];
      }
    }
  }

  /** The first update of every tuple changes the graph. */
  ghost predicate FirstEffective(g: Graph, us: seq<Update>) {
    forall t :: FirstWord(us, t).Some? ==> (t in g <==> !FirstWord(us, t).value)
  }

  lemma {:induction false} NotMentioned(us: seq<Update>, t: Tuple)
    ensures FirstWord(us, t).None? <==> LastWord(us, t).None?
  {
    if us != [] {
      NotMentioned(us[..|us| - 1], t);
    }
  }

  /** Compensation restores the graph if and only if the first update of every tuple took effect. */
  lemma CompensationRestoresIff(g: Graph, us: seq<Update>)
    ensures Apply(Apply(g, us), Compensation(us)) == g <==> FirstEffective(g, us)
  {
    forall t
      ensures (t in Apply(Apply(g, us), Compensation(us)) <==> t in g) <==>
        (FirstWord(us, t).Some? ==> (t in g <==> !FirstWord(us, t).value))
    {
      LastWordDecides(g, us, t);
      LastWordDecides(Apply(g, us), Compensation(us), t);
      CompensationContradicts(us, t);
      NotMentioned(us, t);
    }
  }

  // ---------- lists of one operation ----------

  function TuplesOf(us: seq<Update>): Graph {
    set u | u in us :: u.tuple
  }

  ghost predicate AllOf(op: Operation, us: seq<Update>) {
    forall u :: u in us ==> u.op == op
  }

  lemma {:induction false} OneOperation(op: Operation, us: seq<Update>, t: Tuple)
    requires AllOf(op, us) && op != Unspecified
    ensures FirstWord(us, t) == LastWord(us, t) == if t in TuplesOf(us) then Some(op != Delete) else None
  {
    if us != [] {
      var init, u := us[..|us| - 1], us[|us| - 1];
      assert us == init + [u];
      assert TuplesOf(us) == TuplesOf(init) + {u.tuple};
      OneOperation(op, init, t);
    }
  }

  lemma ApplyTouches(g: Graph, us: seq<Update>)
    requires AllOf(Touch, us)
    ensures Apply(g, us) == g + TuplesOf(us)
  {
    forall t
      ensures t in Apply(g, us) <==> t in g + TuplesOf(us)
    {
      LastWordDecides(g, us, t);
      OneOperation(Touch, us, t);
    }
  }

  lemma ApplyDeletes(g: Graph, us: seq<Update>)
    requires AllOf(Delete, us)
    ensures Apply(g, us) == g - TuplesOf(us)
  {
    forall t
      ensures t in Apply(g, us) <==> t in g - TuplesOf(us)
    {
      LastWordDecides(g, us, t);
      OneOperation(Delete, us, t);
    }
  }

  /** A list of touches is undone if it only adds, one of deletions if it only removes. */
  lemma TouchesAreFirstEffective(g: Graph, us: seq<Update>)
    requires AllOf(Touch, us) && TuplesOf(us) !! g
    ensures FirstEffective(g, us)
  {
    forall t | FirstWord(us, t).Some?
      ensures t in g <==> !FirstWord(us, t).value
    {
      OneOperation(Touch, us, t);
    }
  }

  lemma DeletesAreFirstEffective(g: Graph, us: seq<Update>)
    requires AllOf(Delete, us) && TuplesOf(us) <= g
    ensures FirstEffective(g, us)
  {
    forall t | FirstWord(us, t).Some?
      ensures t in g <==> !FirstWord(us, t).value
    {
      OneOperation(Delete, us, t);
    }
  }

  lemma {:induction false} FirstWordOfAppended(us: seq<Update>, vs: seq<Update>, t: Tuple)
    ensures FirstWord(us + vs, t) == if FirstWord(us, t).Some? then FirstWord(us, t) else FirstWord(vs, t)
  {
    if vs == [] {
      assert us + vs == us;
    } else {
      assert (us + vs)[..|us + vs| - 1] == us + vs[..|vs| - 1];
      FirstWordOfAppended(us, vs[..|vs| - 1], t);
    }
  }

  /** Touches of new tuples followed by deletions of old ones. */
  lemma MixedIsFirstEffective(g: Graph, us: seq<Update>, vs: seq<Update>)
    requires AllOf(Touch, us) && TuplesOf(us) !! g
    requires AllOf(Delete, vs) && TuplesOf(vs) <= g
    ensures FirstEffective(g, us + vs)
    ensures Apply(g, us + vs) == g + TuplesOf(us) - TuplesOf(vs)
  {
    forall t | FirstWord(us + vs, t).Some?
      ensures t in g <==> !FirstWord(us + vs, t).value
    {
      FirstWordOfAppended(us, vs, t);
      OneOperation(Touch, us, t);
      OneOperation(Delete, vs, t);
    }
    ApplyAppends(g, us, vs);
    ApplyTouches(g, us);
    ApplyDeletes(g + TuplesOf(us), vs);
  }

  // ---------- set differences ----------

  /** The elements of s that are not in t, in order and as often. */
  function Without<T(==)>(s: seq<T>, t: seq<T>): seq<T> {
    if s == [] then [] else
      Without(s[..|s| - 1], t) + (if s[|s| - 1] in t then [] else [s[|s| - 1]])
  }

  method Diff<T(==)>(current: seq<T>, incoming: seq<T>, allowEmptyIncoming: bool) returns (add: seq<T>, rem: seq<T>)
    ensures incoming == [] && !allowEmptyIncoming ==> add == [] && rem == []
    ensures incoming != [] || allowEmptyIncoming ==>
      add == Without(incoming, current) && rem == Without(current, incoming)
  {
    add, rem := [], [];
    if |incoming| == 0 && !allowEmptyIncoming {
      return;
    }
    var curr: set<T> := {};
    var inc: set<T> := {};
    for i := 0 to |current|
      invariant curr == set x | x in current[..i]
    {
      curr := curr + {current[i]};
    }
    assert current[..|current|] == current;
    for i := 0 to |incoming|
      invariant inc == set x | x in incoming[..i]
      invariant add == Without(incoming[..i], current)
    {
      assert incoming[..i + 1][..i] == incoming[..i];
      inc := inc + {incoming[i]};
      if incoming[i] !in curr {
        add := add + [incoming[i]];
      }
    }
    assert incoming[..|incoming|] == incoming;
    for i := 0 to |current|
      invariant rem == Without(current[..i], incoming)
    {
      assert current[..i + 1][..i] == current[..i];
      if current[i] !in inc {
        rem := rem + [current[i]];
      }
    }
  }

  lemma {:induction false} WithoutMembers<T>(s: seq<T>, t: seq<T>)
    ensures forall x :: x in Without(s, t) <==> x in s && x !in t
  {
    if s != [] {
      WithoutMembers(s[..|s| - 1], t);
      assert s == s[..|s| - 1] + [s[|s| - 1]];
    }
  }

  /** Nothing else changes: order and multiplicity stay. */
  lemma {:induction false} WithoutAddsUp<T>(a: seq<T>, b: seq<T>, t: seq<T>, x: T)
    ensures Without([x], t) == if x in t then [] else [x]
    ensures Without(a + b, t) == Without(a, t) + Without(b, t)
  {
    assert [x][..0] == [];
    if b == [] {
      assert a + b == a;
    } else {
      WithoutAddsUp(a, b[..|b| - 1], t, x);
      assert (a + b)[..|a + b| - 1] == a + b[..|b| - 1];
    }
  }

  function Elements<T>(s: seq<T>): set<T> {
    set x | x in s
  }

  /** The two lists are disjoint and turn the current set into exactly the incoming one;
      both are empty only when nothing changes. */
  lemma DiffIsExact<T>(current: seq<T>, incoming: seq<T>)
    ensures Elements(Without(incoming, current)) !! Elements(Without(current, incoming))
    ensures Elements(current) - Elements(Without(current, incoming)) + Elements(Without(incoming, current)) ==
      Elements(incoming)
    ensures Without(incoming, current) == [] && Without(current, incoming) == [] <==>
      Elements(current) == Elements(incoming)
  {
    var add, rem := Without(incoming, current), Without(current, incoming);
    WithoutElements(incoming, current);
    WithoutElements(current, incoming);
    if add == [] && rem == [] {
      assert Elements(incoming) - Elements(current) == {} == Elements(current) - Elements(incoming);
    } else {
      var x := if add != [] then add[0] else rem[0];
      assert x in Elements(add) || x in Elements(rem);
    }
  }

  lemma WithoutElements<T>(s: seq<T>, t: seq<T>)
    ensures Elements(Without(s, t)) == Elements(s) - Elements(t)
  {
    WithoutMembers(s, t);
    assert Elements(Without(s, t)) <= Elements(s) - Elements(t);
    forall x | x in Elements(s) - Elements(t)
      ensures x in Elements(Without(s, t))
    {
      assert x in Without(s, t);
    }
  }

  // ---------- action and relation names ----------

  function ActionToRelation(action: string): string {
    action + PERMISSION_SUFFIX
  }

  /** The text before the first occurrence of the suffix, or None if there is none. */
  function CutSuffix(s: string): Option<string> {
    if |s| < |PERMISSION_SUFFIX| then None
    else if s[..|PERMISSION_SUFFIX|] == PERMISSION_SUFFIX then Some("")
    else match CutSuffix(s[1..]) case None => None case Some(rest) => Some([s[0]] + rest)
  }

  /** None where the program panics. */
  function RelationToAction(relation: string): Option<string> {
    CutSuffix(relation)
  }

  predicate SuffixAt(s: string, i: int) {
    0 <= i && i + |PERMISSION_SUFFIX| <= |s| && s[i..i + |PERMISSION_SUFFIX|] == PERMISSION_SUFFIX
  }

  ghost predicate ContainsSuffix(s: string) {
    exists i :: SuffixAt(s, i)
  }

  lemma ContainsShift(s: string)
    requires s != []
    ensures ContainsSuffix(s) <==> SuffixAt(s, 0) || ContainsSuffix(s[1..])
  {
    if i :| SuffixAt(s, i) {
      if i > 0 {
        assert s[1..][i - 1..i + 3] == s[i..i + 4];
        assert SuffixAt(s[1..], i - 1);
      }
    }
    if i :| SuffixAt(s[1..], i) {
      assert s[i + 1..i + 5] == s[1..][i..i + 4];
      assert SuffixAt(s, i + 1);
    }
  }

  /** The suffix does not overlap itself: at the front of action_rel it lies inside the action. */
  lemma SuffixDoesNotOverlap(action: string)
    requires action != []
    ensures SuffixAt(action + PERMISSION_SUFFIX, 0) <==> SuffixAt(action, 0)
  {
    var s := action + PERMISSION_SUFFIX;
    if |action| < 4 {
      assert s[..4][|action|] == '_';
      assert PERMISSION_SUFFIX[|action|] != '_';
    } else {
      assert s[..4] == action[..4];
    }
  }

  /** An action read back from its relation is the action, unless the suffix occurs inside it. */
  lemma {:induction false} ActionReadsBack(action: string)
    ensures RelationToAction(ActionToRelation(action)).Some?
    ensures RelationToAction(ActionToRelation(action)) == Some(action) <==> !ContainsSuffix(action)
  {
    if action == [] {
      assert ActionToRelation(action) == PERMISSION_SUFFIX;
      assert PERMISSION_SUFFIX[..4] == PERMISSION_SUFFIX;
    } else {
      var rest := action[1..];
      ActionReadsBack(rest);
      ContainsShift(action);
      SuffixDoesNotOverlap(action);
      assert ActionToRelation(action)[1..] == ActionToRelation(rest);
      assert action == [action[0]] + rest;
      assert SuffixAt(ActionToRelation(action), 0) <==> ActionToRelation(action)[..4] == PERMISSION_SUFFIX;
    }
  }
}
