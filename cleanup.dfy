/**
 * The interactive cleanup: orphans are grouped by namespace, the namespaces
 * are walked in sorted order, and at each one the operator deletes all, skips
 * all, selects one by one, or quits.
 *
 * The operator's answers are a scripted sequence consumed front to back, and
 * the cluster's delete call is a function telling whether deleting
 * `namespace/name` succeeds. `Step` and `Run` give the walk as a state machine
 * over these inputs; the method `CleanupOrphansInteractive` runs the same walk
 * with the program's nested loops and is proved to produce the same report.
 */
module Cleanup {
  import opened Wrappers
  import opened Text
  import opened Seqs
  import opened Detector

  // ---------------------------------------------------------------------------
  // Grouping by namespace
  // ---------------------------------------------------------------------------

  /** Some orphan of `xs` lives in namespace `ns`. */
  predicate HasNamespace(xs: seq<OrphanRecord>, ns: string) {
    exists o | o in xs :: o.namespace == ns
  }

  /** The orphans of namespace `ns`, in list order: `by_namespace[ns]`. */
  function InNamespace(xs: seq<OrphanRecord>, ns: string): seq<OrphanRecord> {
    if xs == [] then []
    else
      var init := InNamespace(xs[..|xs| - 1], ns);
      if xs[|xs| - 1].namespace == ns then init + [xs[|xs| - 1]] else init
  }

  /** The namespaces of the orphans, ascending and each once: `sorted(by_namespace.keys())`. */
  function SortedNamespaces(xs: seq<OrphanRecord>): (nss: seq<string>)
    ensures StrictlySorted(nss)
    ensures forall ns :: ns in nss <==> HasNamespace(xs, ns)
  {
    if xs == [] then []
    else
      var init := SortedNamespaces(xs[..|xs| - 1]);
      var ns := xs[|xs| - 1].namespace;
      assert xs == xs[..|xs| - 1] + [xs[|xs| - 1]];
      if ns in init then init else InsertSorted(init, ns)
  }

  /** The group of each namespace of `nss`, in the order of `nss`. */
  function GroupsFor(xs: seq<OrphanRecord>, nss: seq<string>): (gs: seq<seq<OrphanRecord>>)
    ensures |gs| == |nss|
  {
    seq(|nss|, k requires 0 <= k < |nss| => InNamespace(xs, nss[k]))
  }

  /** The groups the cleanup walks: one per namespace, in ascending namespace order. */
  function Groups(xs: seq<OrphanRecord>): seq<seq<OrphanRecord>> {
    GroupsFor(xs, SortedNamespaces(xs))
  }

  /** The orphans whose namespace is in `s`, in list order. */
  function InNamespaces(xs: seq<OrphanRecord>, s: set<string>): (r: seq<OrphanRecord>)
    ensures s == {} ==> r == []
  {
    if xs == [] then []
    else
      var init := InNamespaces(xs[..|xs| - 1], s);
      if xs[|xs| - 1].namespace in s then init + [xs[|xs| - 1]] else init
  }

  /** A namespace's group holds exactly the orphans of that namespace. */
  lemma {:induction false} InNamespaceMembers(xs: seq<OrphanRecord>, ns: string)
    ensures forall o :: o in InNamespace(xs, ns) <==> o in xs && o.namespace == ns
  {
    if xs != [] {
      var init := xs[..|xs| - 1];
      InNamespaceMembers(init, ns);
      assert xs == init + [xs[|xs| - 1]];
    }
  }

  /** A namespace's group keeps the list order. */
  lemma {:induction false} InNamespaceInOrder(xs: seq<OrphanRecord>, ns: string)
    ensures Subseq(InNamespace(xs, ns), xs)
  {
    if xs != [] {
      var init, last := xs[..|xs| - 1], xs[|xs| - 1];
      InNamespaceInOrder(init, ns);
      assert xs == init + [last];
      if last.namespace == ns {
        SubseqAppend(InNamespace(init, ns), init, [last]);
      } else {
        SubseqExtend(InNamespace(init, ns), init, [last]);
      }
    }
  }

  /** A namespace's group is empty exactly when no orphan lives there. */
  lemma InNamespaceEmpty(xs: seq<OrphanRecord>, ns: string)
    ensures InNamespace(xs, ns) == [] <==> !HasNamespace(xs, ns)
  {
    InNamespaceMembers(xs, ns);
    if InNamespace(xs, ns) != [] {
      assert InNamespace(xs, ns)[0] in InNamespace(xs, ns);
    }
  }

  /** Splitting off one more namespace from a set splits the filtered orphans accordingly. */
  lemma {:induction false} InNamespacesAdd(xs: seq<OrphanRecord>, s: set<string>, ns: string)
    requires ns !in s
    ensures multiset(InNamespaces(xs, s + {ns})) == multiset(InNamespaces(xs, s)) + multiset(InNamespace(xs, ns))
  {
    if xs != [] {
      InNamespacesAdd(xs[..|xs| - 1], s, ns);
    }
  }

  /** Filtering by a set holding every orphan's namespace keeps the whole list. */
  lemma {:induction false} InNamespacesAll(xs: seq<OrphanRecord>, s: set<string>)
    requires forall k | 0 <= k < |xs| :: xs[k].namespace in s
    ensures InNamespaces(xs, s) == xs
  {
    if xs != [] {
      var init := xs[..|xs| - 1];
      InNamespacesAll(init, s);
      assert xs == init + [xs[|xs| - 1]];
    }
  }

  /** The namespaces of `nss` as a set. */
  function NamespaceSet(nss: seq<string>): (s: set<string>)
    ensures forall ns :: ns in s <==> ns in nss
  {
    if nss == [] then {} else NamespaceSet(nss[..|nss| - 1]) + {nss[|nss| - 1]}
  }

  /** The last namespace of a strictly ascending sequence occurs nowhere before it. */
  lemma LastIsNew(nss: seq<string>)
    requires StrictlySorted(nss) && nss != []
    ensures nss[|nss| - 1] !in nss[..|nss| - 1]
  {
    var last := nss[|nss| - 1];
    if last in nss[..|nss| - 1] {
      var k :| 0 <= k < |nss| - 1 && nss[k] == last;
      assert StrLess(nss[k], nss[|nss| - 1]);
      StrLessIrreflexive(last);
    }
  }

  /** The groups of distinct namespaces together hold the orphans of those namespaces. */
  lemma {:induction false} FlattenGroupsFor(xs: seq<OrphanRecord>, nss: seq<string>)
    requires StrictlySorted(nss)
    ensures multiset(Flatten(GroupsFor(xs, nss))) == multiset(InNamespaces(xs, NamespaceSet(nss)))
  {
    if nss == [] {
      assert InNamespaces(xs, NamespaceSet(nss)) == [];
    } else {
      var init, last := nss[..|nss| - 1], nss[|nss| - 1];
      assert StrictlySorted(init);
      FlattenGroupsFor(xs, init);
      var gs := GroupsFor(xs, nss);
      assert gs[..|nss| - 1] == GroupsFor(xs, init);
      assert Flatten(gs) == Flatten(GroupsFor(xs, init)) + InNamespace(xs, last);
      LastIsNew(nss);
      assert NamespaceSet(nss) == NamespaceSet(init) + {last};
      InNamespacesAdd(xs, NamespaceSet(init), last);
    }
  }

  /** Walking the groups one after the other visits every orphan exactly once. */
  lemma GroupsPermutation(xs: seq<OrphanRecord>)
    ensures multiset(Flatten(Groups(xs))) == multiset(xs)
    ensures |Flatten(Groups(xs))| == |xs|
  {
    var nss := SortedNamespaces(xs);
    FlattenGroupsFor(xs, nss);
    forall k | 0 <= k < |xs| ensures xs[k].namespace in NamespaceSet(nss) {
      assert xs[k] in xs;
      assert HasNamespace(xs, xs[k].namespace);
    }
    InNamespacesAll(xs, NamespaceSet(nss));
    assert |multiset(Flatten(Groups(xs)))| == |multiset(xs)|;
  }

  /**
   * The walk order: the groups belong to the namespaces in strictly ascending
   * order, none is empty, and each is its namespace's orphans in list order.
   */
  lemma GroupsShape(xs: seq<OrphanRecord>)
    ensures |Groups(xs)| == |SortedNamespaces(xs)|
    ensures forall i, j | 0 <= i < j < |Groups(xs)| ::
              StrLess(SortedNamespaces(xs)[i], SortedNamespaces(xs)[j])
    ensures forall k | 0 <= k < |Groups(xs)| ::
              Groups(xs)[k] != [] && Subseq(Groups(xs)[k], xs)
              && (forall o | o in Groups(xs)[k] :: o.namespace == SortedNamespaces(xs)[k])
  {
    var nss := SortedNamespaces(xs);
    forall k | 0 <= k < |nss|
      ensures Groups(xs)[k] != [] && Subseq(Groups(xs)[k], xs)
      ensures forall o | o in Groups(xs)[k] :: o.namespace == nss[k]
    {
      InNamespaceMembers(xs, nss[k]);
      InNamespaceInOrder(xs, nss[k]);
      InNamespaceEmpty(xs, nss[k]);
    }
  }

  /** Namespaces never go down along the sequence. */
  predicate NamespacesAscend(os: seq<OrphanRecord>) {
    forall p, q | 0 <= p < q < |os| :: !StrLess(os[q].namespace, os[p].namespace)
  }

  /** The walk meets the namespaces in ascending order. */
  lemma {:induction false} FlattenGroupsAscend(xs: seq<OrphanRecord>, nss: seq<string>)
    requires StrictlySorted(nss)
    ensures NamespacesAscend(Flatten(GroupsFor(xs, nss)))
    ensures forall o | o in Flatten(GroupsFor(xs, nss)) :: o.namespace in nss
  {
    if nss != [] {
      var init, last := nss[..|nss| - 1], nss[|nss| - 1];
      FlattenGroupsAscend(xs, init);
      var gs := GroupsFor(xs, nss);
      assert gs[..|nss| - 1] == GroupsFor(xs, init);
      var front: seq<OrphanRecord> := Flatten(GroupsFor(xs, init));
      var g: seq<OrphanRecord> := InNamespace(xs, last);
      assert Flatten(gs) == front + g;
      InNamespaceMembers(xs, last);
      forall p, q | 0 <= p < q < |front + g|
        ensures !StrLess((front + g)[q].namespace, (front + g)[p].namespace)
      {
        if q >= |front| {
          assert (front + g)[q] in g;
          if p >= |front| {
            assert (front + g)[p] in g;
            StrLessIrreflexive(last);
          } else {
            assert (front + g)[p] in front;
            var k :| 0 <= k < |init| && init[k] == (front + g)[p].namespace;
            StrLessAsymmetric(nss[k], last);
          }
        }
      }
    }
  }

  /** A subsequence of an ascending walk is ascending. */
  lemma {:induction false} SubseqAscends(xs: seq<OrphanRecord>, ys: seq<OrphanRecord>)
    requires Subseq(xs, ys) && NamespacesAscend(ys)
    ensures NamespacesAscend(xs)
    decreases |ys|
  {
    if xs != [] {
      var ys', y := ys[..|ys| - 1], ys[|ys| - 1];
      if xs[|xs| - 1] == y && Subseq(xs[..|xs| - 1], ys') {
        var xs' := xs[..|xs| - 1];
        SubseqAscends(xs', ys');
        SubseqMultiset(xs', ys');
        forall p, q | 0 <= p < q < |xs| ensures !StrLess(xs[q].namespace, xs[p].namespace) {
          if q == |xs| - 1 {
            assert xs[p] == xs'[p] && xs'[p] in multiset(xs');
            assert xs[p] in ys';
            var r :| 0 <= r < |ys'| && ys'[r] == xs[p];
            assert ys[r] == xs[p] && ys[|ys| - 1] == xs[q];
          } else {
            assert xs[p] == xs'[p] && xs[q] == xs'[q];
          }
        }
      } else {
        SubseqAscends(xs, ys');
      }
    }
  }

  // ---------------------------------------------------------------------------
  // Answers
  // ---------------------------------------------------------------------------

  /** What an answer asks for. */
  datatype Choice = Yes | No | Select | Quit | Invalid

  /** What a lower-cased, stripped answer asks for at a namespace prompt: `y`, `n`, `s` or `q`. */
  function NamespaceCommand(c: string): Choice {
    if c == "q" then Quit
    else if c == "y" then Yes
    else if c == "n" then No
    else if c == "s" then Select
    else Invalid
  }

  /** What a lower-cased, stripped answer asks for at a resource prompt: `y`, `n` or `q`. */
  function ResourceCommand(c: string): Choice {
    if c == "q" then Quit
    else if c == "y" then Yes
    else if c == "n" then No
    else Invalid
  }

  /** An answer typed at a namespace prompt. */
  function NamespaceChoice(answer: string): Choice {
    NamespaceCommand(Normalize(answer))
  }

  /** An answer typed at a resource prompt. */
  function ResourceChoice(answer: string): Choice {
    ResourceCommand(Normalize(answer))
  }

  /** The answers as the program compares them: each one lower-cased and stripped. */
  function Answers(inputs: seq<string>): seq<string> {
    seq(|inputs|, i requires 0 <= i < |inputs| => Normalize(inputs[i]))
  }

  /** The letters a namespace prompt acts on, once lower-cased. */
  predicate NamespaceLetter(c: char) {
    c == 'y' || c == 'n' || c == 's' || c == 'q'
  }

  /** The answer is the one character at `i`, with nothing but white space around it. */
  predicate SoleCharAt(answer: string, i: int) {
    0 <= i < |answer| && forall j | 0 <= j < |answer| && j != i :: IsSpace(answer[j])
  }

  /** A recognised answer is a single namespace letter padded with white space. */
  lemma RecognisedIsPaddedLetter(answer: string) returns (i: int)
    requires NamespaceChoice(answer) != Invalid
    ensures SoleCharAt(answer, i) && NamespaceLetter(LowerChar(answer[i]))
  {
    var c := Normalize(answer);
    assert c == "q" || c == "y" || c == "n" || c == "s";
    NormalizeSingle(answer, c[0]);
    i :| 0 <= i < |answer| && LowerChar(answer[i]) == c[0]
         && (forall j | 0 <= j < |answer| && j != i :: IsSpace(answer[j]));
  }

  /** A namespace letter in either case, padded with white space, is recognised. */
  lemma PaddedLetterIsRecognised(answer: string, i: int)
    requires SoleCharAt(answer, i) && NamespaceLetter(LowerChar(answer[i]))
    ensures NamespaceChoice(answer) != Invalid
  {
    var c := answer[i];
    assert !IsSpace(c) by {
      assert 'A' <= c <= 'Z' || 'a' <= c <= 'z';
    }
    var ws1, ws2 := answer[..i], answer[i + 1..];
    assert answer == ws1 + [c] + ws2;
    assert forall k | 0 <= k < |ws2| :: ws2[k] == answer[i + 1 + k];
    NormalizePadded(ws1, c, ws2);
    var x := LowerChar(c);
    assert Normalize(answer) == [x];
    assert x == 'y' ==> [x] == "y";
    assert x == 'n' ==> [x] == "n";
    assert x == 's' ==> [x] == "s";
    assert x == 'q' ==> [x] == "q";
  }

  /**
   * A namespace prompt acts on an answer exactly when the answer is one of the
   * letters y, n, s, q, in either case, with nothing but white space around it.
   */
  lemma NamespaceChoiceRecognised(answer: string)
    ensures NamespaceChoice(answer) != Invalid <==>
              exists i :: SoleCharAt(answer, i) && NamespaceLetter(LowerChar(answer[i]))
  {
    if NamespaceChoice(answer) != Invalid {
      var i := RecognisedIsPaddedLetter(answer);
    }
    if exists i :: SoleCharAt(answer, i) && NamespaceLetter(LowerChar(answer[i])) {
      var i :| SoleCharAt(answer, i) && NamespaceLetter(LowerChar(answer[i]));
      PaddedLetterIsRecognised(answer, i);
    }
  }

  /** The letters a resource prompt acts on, once lower-cased. */
  predicate ResourceLetter(c: char) {
    c == 'y' || c == 'n' || c == 'q'
  }

  /** An answer acted on at a resource prompt is a single resource letter padded with white space. */
  lemma RecognisedAtResourceIsPaddedLetter(answer: string) returns (i: int)
    requires ResourceChoice(answer) != Invalid
    ensures SoleCharAt(answer, i) && ResourceLetter(LowerChar(answer[i]))
  {
    var c := Normalize(answer);
    assert c == "q" || c == "y" || c == "n";
    NormalizeSingle(answer, c[0]);
    i :| 0 <= i < |answer| && LowerChar(answer[i]) == c[0]
         && (forall j | 0 <= j < |answer| && j != i :: IsSpace(answer[j]));
  }

  /** A resource letter in either case, padded with white space, is acted on at a resource prompt. */
  lemma PaddedLetterIsRecognisedAtResource(answer: string, i: int)
    requires SoleCharAt(answer, i) && ResourceLetter(LowerChar(answer[i]))
    ensures ResourceChoice(answer) != Invalid
  {
    var c := answer[i];
    assert !IsSpace(c) by {
      assert 'A' <= c <= 'Z' || 'a' <= c <= 'z';
    }
    var ws1, ws2 := answer[..i], answer[i + 1..];
    assert answer == ws1 + [c] + ws2;
    assert forall k | 0 <= k < |ws2| :: ws2[k] == answer[i + 1 + k];
    NormalizePadded(ws1, c, ws2);
    var x := LowerChar(c);
    assert Normalize(answer) == [x];
    assert x == 'y' ==> [x] == "y";
    assert x == 'n' ==> [x] == "n";
    assert x == 'q' ==> [x] == "q";
  }

  /**
   * A resource prompt acts on an answer exactly when the answer is one of the
   * letters y, n, q, in either case, with nothing but white space around it;
   * in particular `s` selects nothing there and repeats the prompt.
   */
  lemma ResourceChoiceRecognised(answer: string)
    ensures ResourceChoice(answer) != Invalid <==>
              exists i :: SoleCharAt(answer, i) && ResourceLetter(LowerChar(answer[i]))
  {
    if ResourceChoice(answer) != Invalid {
      var i := RecognisedAtResourceIsPaddedLetter(answer);
    }
    if exists i :: SoleCharAt(answer, i) && ResourceLetter(LowerChar(answer[i])) {
      var i :| SoleCharAt(answer, i) && ResourceLetter(LowerChar(answer[i]));
      PaddedLetterIsRecognisedAtResource(answer, i);
    }
  }

  // ---------------------------------------------------------------------------
  // The walk as a state machine
  // ---------------------------------------------------------------------------

  /** One delete call: the orphan it was made for and whether it succeeded. */
  datatype Attempt = Attempt(orphan: OrphanRecord, succeeded: bool)

  /** How the walk ended. */
  datatype Outcome =
    | NothingToClean                 // no orphans: nothing is asked
    | Completed                      // every namespace was answered
    | AbortedAtNamespace(summaryDeleted: nat, summarySkipped: nat)  // `q` at a namespace, with the summary printed
    | AbortedInSelect                // `q` at a resource: no summary
    | InputExhausted                 // the operator's answers ran out

  /** Where the walk stands: at a namespace prompt, at a resource prompt, or done. */
  datatype Phase = AtNamespace(ns: nat) | Selecting(ns: nat, item: nat) | Finished(outcome: Outcome)

  /** The walk's state: its phase, the delete calls made, and `deleted_count`, `skipped_count`. */
  datatype Machine = Machine(phase: Phase, attempts: seq<Attempt>, deleted: nat, skipped: nat)

  /** What the walk returns: the delete calls, the two counters, the answers read, the outcome. */
  datatype CleanupReport = CleanupReport(attempts: seq<Attempt>, deleted: nat, skipped: nat, consumed: nat, outcome: Outcome)

  /** The indices of the phase point at an existing namespace and resource. */
  predicate ValidPhase(groups: seq<seq<OrphanRecord>>, p: Phase) {
    match p
    case AtNamespace(i) => i < |groups|
    case Selecting(i, j) => i < |groups| && j < |groups[i]|
    case Finished(_) => true
  }

  /** The prompt of namespace `i`, or completion after the last namespace. */
  function AtNamespaceOrDone(groups: seq<seq<OrphanRecord>>, i: nat): Phase {
    if i < |groups| then AtNamespace(i) else Finished(Completed)
  }

  /** One delete call and its effect on the counters. */
  function DeleteOne(o: OrphanRecord, delete: (string, string) -> bool, m: Machine): Machine {
    var ok := delete(o.namespace, o.name);
    m.(attempts := m.attempts + [Attempt(o, ok)],
       deleted := if ok then m.deleted + 1 else m.deleted,
       skipped := if ok then m.skipped else m.skipped + 1)
  }

  /** Delete calls for every orphan of `g`, in order. */
  function DeleteAll(g: seq<OrphanRecord>, delete: (string, string) -> bool, m: Machine): Machine {
    if g == [] then m else DeleteOne(g[|g| - 1], delete, DeleteAll(g[..|g| - 1], delete, m))
  }

  /** What a choice does at the prompt of namespace `i`. */
  function NamespaceStep(groups: seq<seq<OrphanRecord>>, delete: (string, string) -> bool, m: Machine, i: nat, c: Choice): Machine
    requires i < |groups|
  {
    match c
    case Quit => m.(phase := Finished(AbortedAtNamespace(m.deleted, m.skipped + |Flatten(groups[i..])|)))
    case Yes => DeleteAll(groups[i], delete, m).(phase := AtNamespaceOrDone(groups, i + 1))
    case No => m.(phase := AtNamespaceOrDone(groups, i + 1), skipped := m.skipped + |groups[i]|)
    case Select => m.(phase := if 0 < |groups[i]| then Selecting(i, 0) else AtNamespaceOrDone(groups, i + 1))
    case Invalid => m
  }

  /** What a choice does at the prompt of resource `j` of namespace `i`. */
  function ResourceStep(groups: seq<seq<OrphanRecord>>, delete: (string, string) -> bool, m: Machine, i: nat, j: nat, c: Choice): Machine
    requires i < |groups| && j < |groups[i]|
  {
    var next := if j + 1 < |groups[i]| then Selecting(i, j + 1) else AtNamespaceOrDone(groups, i + 1);
    match c
    case Quit => m.(phase := Finished(AbortedInSelect))
    case Yes => DeleteOne(groups[i][j], delete, m).(phase := next)
    case No => m.(phase := next, skipped := m.skipped + 1)
    case _ => m
  }

  /** What one answer, lower-cased and stripped, does at the current prompt. */
  function Step(groups: seq<seq<OrphanRecord>>, delete: (string, string) -> bool, m: Machine, command: string): Machine
    requires ValidPhase(groups, m.phase) && !m.phase.Finished?
  {
    match m.phase
    case AtNamespace(i) => NamespaceStep(groups, delete, m, i, NamespaceCommand(command))
    case Selecting(i, j) => ResourceStep(groups, delete, m, i, j, ResourceCommand(command))
  }

  /** Feeds the answers from position `k` on until the walk is finished or the answers run out. */
  function Run(groups: seq<seq<OrphanRecord>>, delete: (string, string) -> bool, m: Machine,
               answers: seq<string>, k: nat): CleanupReport
    requires ValidPhase(groups, m.phase) && k <= |answers|
    decreases |answers| - k
  {
    if m.phase.Finished? then CleanupReport(m.attempts, m.deleted, m.skipped, k, m.phase.outcome)
    else if k == |answers| then CleanupReport(m.attempts, m.deleted, m.skipped, k, InputExhausted)
    else Run(groups, delete, Step(groups, delete, m, answers[k]), answers, k + 1)
  }

  /** The whole cleanup: nothing at all for no orphans, else the walk from the first namespace. */
  function Cleanup(orphans: seq<OrphanRecord>, inputs: seq<string>, delete: (string, string) -> bool): CleanupReport {
    if orphans == [] then CleanupReport([], 0, 0, 0, NothingToClean)
    else
      var groups := Groups(orphans);
      Run(groups, delete, Machine(AtNamespaceOrDone(groups, 0), [], 0, 0), Answers(inputs), 0)
  }

  // ---------------------------------------------------------------------------
  // What the walk keeps invariant
  // ---------------------------------------------------------------------------

  /** The orphans the delete calls were made for. */
  function Attempted(attempts: seq<Attempt>): seq<OrphanRecord> {
    if attempts == [] then [] else Attempted(attempts[..|attempts| - 1]) + [attempts[|attempts| - 1].orphan]
  }

  /** The number of delete calls that succeeded. */
  function Successes(attempts: seq<Attempt>): nat {
    if attempts == [] then 0
    else Successes(attempts[..|attempts| - 1]) + (if attempts[|attempts| - 1].succeeded then 1 else 0)
  }

  /** Every recorded outcome is what the delete call answered. */
  predicate Faithful(delete: (string, string) -> bool, attempts: seq<Attempt>) {
    forall a | a in attempts :: a.succeeded == delete(a.orphan.namespace, a.orphan.name)
  }

  /** The orphans the walk has passed, in walk order. */
  function Walked(groups: seq<seq<OrphanRecord>>, p: Phase): seq<OrphanRecord>
    requires ValidPhase(groups, p)
  {
    match p
    case AtNamespace(i) => Flatten(groups[..i])
    case Selecting(i, j) => Flatten(groups[..i]) + groups[i][..j]
    case Finished(_) => Flatten(groups)
  }

  /**
   * The walk's invariant: `deleted_count` counts the successful delete calls;
   * the calls were made for orphans already passed, in walk order, each at
   * most once; every passed orphan is either deleted or skipped; and an abort
   * at a namespace reports totals that cover every orphan.
   */
  ghost predicate Inv(groups: seq<seq<OrphanRecord>>, delete: (string, string) -> bool, m: Machine) {
    ValidPhase(groups, m.phase)
    && m.deleted == Successes(m.attempts)
    && Faithful(delete, m.attempts)
    && Subseq(Attempted(m.attempts), Walked(groups, m.phase))
    && match m.phase
       case Finished(AbortedAtNamespace(d, s)) =>
         d == m.deleted && d + s == |Flatten(groups)|
         && exists p: Phase | p.AtNamespace? :: PassedExactly(groups, m.attempts, m.deleted, m.skipped, p)
       case Finished(Completed) => m.deleted + m.skipped == |Flatten(groups)|
       case Finished(AbortedInSelect) =>
         exists p: Phase | p.Selecting? :: PassedExactly(groups, m.attempts, m.deleted, m.skipped, p)
       case Finished(_) => false  // the walk itself never ends with `NothingToClean` or `InputExhausted`
       case _ => m.deleted + m.skipped == |Walked(groups, m.phase)|
  }

  /**
   * The walk stopped at prompt `p`: the delete calls were made for orphans
   * passed before `p`, in walk order, and the two counters account for exactly
   * those orphans.
   */
  ghost predicate PassedExactly(groups: seq<seq<OrphanRecord>>, attempts: seq<Attempt>, deleted: nat, skipped: nat, p: Phase) {
    ValidPhase(groups, p) && !p.Finished?
    && Subseq(Attempted(attempts), Walked(groups, p))
    && deleted + skipped == |Walked(groups, p)|
  }

  /** One delete call records its orphan and result, and moves one orphan to deleted or skipped. */
  lemma DeleteOneEffect(o: OrphanRecord, delete: (string, string) -> bool, m: Machine)
    ensures DeleteOne(o, delete, m).phase == m.phase
    ensures Attempted(DeleteOne(o, delete, m).attempts) == Attempted(m.attempts) + [o]
    ensures DeleteOne(o, delete, m).deleted + DeleteOne(o, delete, m).skipped == m.deleted + m.skipped + 1
    ensures m.deleted == Successes(m.attempts) ==> DeleteOne(o, delete, m).deleted == Successes(DeleteOne(o, delete, m).attempts)
    ensures Faithful(delete, m.attempts) ==> Faithful(delete, DeleteOne(o, delete, m).attempts)
  {
    var as' := DeleteOne(o, delete, m).attempts;
    assert as'[..|as'| - 1] == m.attempts;
  }

  /** Deleting a whole group records its orphans in order and moves all of them to deleted or skipped. */
  lemma {:induction false} DeleteAllEffect(g: seq<OrphanRecord>, delete: (string, string) -> bool, m: Machine)
    ensures DeleteAll(g, delete, m).phase == m.phase
    ensures Attempted(DeleteAll(g, delete, m).attempts) == Attempted(m.attempts) + g
    ensures DeleteAll(g, delete, m).deleted + DeleteAll(g, delete, m).skipped == m.deleted + m.skipped + |g|
    ensures m.deleted == Successes(m.attempts) ==> DeleteAll(g, delete, m).deleted == Successes(DeleteAll(g, delete, m).attempts)
    ensures Faithful(delete, m.attempts) ==> Faithful(delete, DeleteAll(g, delete, m).attempts)
  {
    if g == [] {
      assert Attempted(m.attempts) + g == Attempted(m.attempts);
    } else {
      var init := g[..|g| - 1];
      DeleteAllEffect(init, delete, m);
      DeleteOneEffect(g[|g| - 1], delete, DeleteAll(init, delete, m));
      assert init + [g[|g| - 1]] == g;
    }
  }

  /** The whole walk, cut inside group `i` after its first `j` orphans. */
  lemma FlattenSplitAt(groups: seq<seq<OrphanRecord>>, i: nat, j: nat)
    requires i < |groups| && j <= |groups[i]|
    ensures Flatten(groups) == (Flatten(groups[..i]) + groups[i][..j]) + (groups[i][j..] + Flatten(groups[i + 1..]))
  {
    var front, back := groups[..i + 1], groups[i + 1..];
    FlattenConcat(front, back);
    assert front + back == groups;
    FlattenPrefixStep(groups, i);
    var g := groups[i];
    assert g == g[..j] + g[j..];
    calc {
      Flatten(groups);
      Flatten(groups[..i]) + (g[..j] + g[j..]) + Flatten(back);
      (Flatten(groups[..i]) + g[..j]) + (g[j..] + Flatten(back));
    }
  }

  /** What the walk has passed is a prefix of the whole walk. */
  lemma WalkedIsPrefix(groups: seq<seq<OrphanRecord>>, p: Phase)
    requires ValidPhase(groups, p)
    ensures exists rest :: Walked(groups, p) + rest == Flatten(groups)
  {
    match p
    case AtNamespace(i) =>
      FlattenSplitAt(groups, i, 0);
      assert Walked(groups, p) == Flatten(groups[..i]) + groups[i][..0];
      assert Walked(groups, p) + (groups[i][0..] + Flatten(groups[i + 1..])) == Flatten(groups);
    case Selecting(i, j) =>
      FlattenSplitAt(groups, i, j);
      assert Walked(groups, p) + (groups[i][j..] + Flatten(groups[i + 1..])) == Flatten(groups);
    case Finished(_) =>
      assert Walked(groups, p) + [] == Flatten(groups);
  }

  /** Passing more of the walk keeps the delete calls a subsequence of what was passed. */
  lemma WalkOn(groups: seq<seq<OrphanRecord>>, attempted: seq<OrphanRecord>, p: Phase)
    requires ValidPhase(groups, p) && Subseq(attempted, Walked(groups, p))
    ensures Subseq(attempted, Flatten(groups))
  {
    WalkedIsPrefix(groups, p);
    var rest :| Walked(groups, p) + rest == Flatten(groups);
    SubseqExtend(attempted, Walked(groups, p), rest);
  }

  /** Walking past the rest of namespace `i` reaches the phase after it. */
  lemma NextNamespaceWalked(groups: seq<seq<OrphanRecord>>, i: nat)
    requires i < |groups|
    ensures ValidPhase(groups, AtNamespaceOrDone(groups, i + 1))
    ensures Walked(groups, AtNamespaceOrDone(groups, i + 1)) == Flatten(groups[..i]) + groups[i]
  {
    FlattenPrefixStep(groups, i);
    assert groups[..|groups|] == groups;
  }

  /** The totals reported by an abort at namespace `i` cover the walked and the remaining orphans. */
  lemma AbortTotals(groups: seq<seq<OrphanRecord>>, i: nat)
    requires i <= |groups|
    ensures |Flatten(groups[..i])| + |Flatten(groups[i..])| == |Flatten(groups)|
  {
    FlattenConcat(groups[..i], groups[i..]);
    assert groups[..i] + groups[i..] == groups;
  }

  /** A state still walking, or just completed, keeps the invariant when its counters cover what it passed. */
  lemma WalkingInv(groups: seq<seq<OrphanRecord>>, delete: (string, string) -> bool, m: Machine)
    requires ValidPhase(groups, m.phase)
    requires m.phase.Finished? ==> m.phase.outcome == Completed
    requires m.deleted == Successes(m.attempts) && Faithful(delete, m.attempts)
    requires Subseq(Attempted(m.attempts), Walked(groups, m.phase))
    requires m.deleted + m.skipped == |Walked(groups, m.phase)|
    ensures Inv(groups, delete, m)
  {
  }

  /** `y` at a namespace: every orphan of the namespace gets a delete call. */
  lemma DeleteNamespaceKeepsInv(groups: seq<seq<OrphanRecord>>, delete: (string, string) -> bool, m: Machine, i: nat)
    requires Inv(groups, delete, m) && m.phase == AtNamespace(i)
    ensures Inv(groups, delete, DeleteAll(groups[i], delete, m).(phase := AtNamespaceOrDone(groups, i + 1)))
  {
    var m' := DeleteAll(groups[i], delete, m).(phase := AtNamespaceOrDone(groups, i + 1));
    DeleteAllEffect(groups[i], delete, m);
    NextNamespaceWalked(groups, i);
    SubseqAppend(Attempted(m.attempts), Walked(groups, m.phase), groups[i]);
    WalkingInv(groups, delete, m');
  }

  /** `n` at a namespace: every orphan of the namespace is skipped. */
  lemma SkipNamespaceKeepsInv(groups: seq<seq<OrphanRecord>>, delete: (string, string) -> bool, m: Machine, i: nat)
    requires Inv(groups, delete, m) && m.phase == AtNamespace(i)
    ensures Inv(groups, delete, m.(phase := AtNamespaceOrDone(groups, i + 1), skipped := m.skipped + |groups[i]|))
  {
    var m' := m.(phase := AtNamespaceOrDone(groups, i + 1), skipped := m.skipped + |groups[i]|);
    NextNamespaceWalked(groups, i);
    SubseqExtend(Attempted(m.attempts), Walked(groups, m.phase), groups[i]);
    WalkingInv(groups, delete, m');
  }

  /** `s` at a namespace: the walk enters the namespace's first resource. */
  lemma SelectNamespaceKeepsInv(groups: seq<seq<OrphanRecord>>, delete: (string, string) -> bool, m: Machine, i: nat)
    requires Inv(groups, delete, m) && m.phase == AtNamespace(i)
    ensures Inv(groups, delete, m.(phase := if 0 < |groups[i]| then Selecting(i, 0) else AtNamespaceOrDone(groups, i + 1)))
  {
    var m' := m.(phase := if 0 < |groups[i]| then Selecting(i, 0) else AtNamespaceOrDone(groups, i + 1));
    if 0 < |groups[i]| {
      assert Walked(groups, m'.phase) == Walked(groups, m.phase) + groups[i][..0];
      assert Walked(groups, m'.phase) == Walked(groups, m.phase);
    } else {
      NextNamespaceWalked(groups, i);
      assert Walked(groups, m'.phase) == Walked(groups, m.phase) + groups[i];
      assert Walked(groups, m'.phase) == Walked(groups, m.phase);
    }
    WalkingInv(groups, delete, m');
  }

  /** `q` at a resource: the counters cover exactly the orphans passed before that resource. */
  lemma QuitAtResourceKeepsInv(groups: seq<seq<OrphanRecord>>, delete: (string, string) -> bool, m: Machine, i: nat, j: nat)
    requires Inv(groups, delete, m) && m.phase == Selecting(i, j)
    ensures Inv(groups, delete, m.(phase := Finished(AbortedInSelect)))
  {
    assert PassedExactly(groups, m.attempts, m.deleted, m.skipped, m.phase);
    WalkOn(groups, Attempted(m.attempts), m.phase);
  }

  /** `q` at a namespace: the summary counts every orphan not deleted as skipped. */
  lemma QuitAtNamespaceKeepsInv(groups: seq<seq<OrphanRecord>>, delete: (string, string) -> bool, m: Machine, i: nat)
    requires Inv(groups, delete, m) && m.phase == AtNamespace(i)
    ensures Inv(groups, delete, m.(phase := Finished(AbortedAtNamespace(m.deleted, m.skipped + |Flatten(groups[i..])|))))
  {
    AbortTotals(groups, i);
    assert PassedExactly(groups, m.attempts, m.deleted, m.skipped, m.phase);
    WalkOn(groups, Attempted(m.attempts), m.phase);
  }

  /** Passing resource `j` of namespace `i` extends the walk by that resource. */
  lemma NextResourceWalked(groups: seq<seq<OrphanRecord>>, i: nat, j: nat)
    requires i < |groups| && j < |groups[i]|
    ensures ValidPhase(groups, if j + 1 < |groups[i]| then Selecting(i, j + 1) else AtNamespaceOrDone(groups, i + 1))
    ensures Walked(groups, if j + 1 < |groups[i]| then Selecting(i, j + 1) else AtNamespaceOrDone(groups, i + 1))
            == Walked(groups, Selecting(i, j)) + [groups[i][j]]
  {
    assert groups[i][..j + 1] == groups[i][..j] + [groups[i][j]];
    if j + 1 == |groups[i]| {
      NextNamespaceWalked(groups, i);
      assert groups[i][..j + 1] == groups[i];
    }
  }

  /** `y` at a resource: that resource gets a delete call. */
  lemma DeleteResourceKeepsInv(groups: seq<seq<OrphanRecord>>, delete: (string, string) -> bool, m: Machine, i: nat, j: nat)
    requires Inv(groups, delete, m) && m.phase == Selecting(i, j)
    ensures Inv(groups, delete, DeleteOne(groups[i][j], delete, m).(
              phase := if j + 1 < |groups[i]| then Selecting(i, j + 1) else AtNamespaceOrDone(groups, i + 1)))
  {
    var m' := DeleteOne(groups[i][j], delete, m).(
      phase := if j + 1 < |groups[i]| then Selecting(i, j + 1) else AtNamespaceOrDone(groups, i + 1));
    DeleteOneEffect(groups[i][j], delete, m);
    NextResourceWalked(groups, i, j);
    SubseqAppend(Attempted(m.attempts), Walked(groups, m.phase), [groups[i][j]]);
    WalkingInv(groups, delete, m');
  }

  /** `n` at a resource: that resource is skipped. */
  lemma SkipResourceKeepsInv(groups: seq<seq<OrphanRecord>>, delete: (string, string) -> bool, m: Machine, i: nat, j: nat)
    requires Inv(groups, delete, m) && m.phase == Selecting(i, j)
    ensures Inv(groups, delete, m.(
              phase := if j + 1 < |groups[i]| then Selecting(i, j + 1) else AtNamespaceOrDone(groups, i + 1),
              skipped := m.skipped + 1))
  {
    var m' := m.(
      phase := if j + 1 < |groups[i]| then Selecting(i, j + 1) else AtNamespaceOrDone(groups, i + 1),
      skipped := m.skipped + 1);
    NextResourceWalked(groups, i, j);
    SubseqExtend(Attempted(m.attempts), Walked(groups, m.phase), [groups[i][j]]);
    WalkingInv(groups, delete, m');
  }

  /** Every choice at a namespace prompt keeps the invariant. */
  lemma NamespaceStepKeepsInv(groups: seq<seq<OrphanRecord>>, delete: (string, string) -> bool, m: Machine, i: nat, c: Choice)
    requires Inv(groups, delete, m) && m.phase == AtNamespace(i)
    ensures Inv(groups, delete, NamespaceStep(groups, delete, m, i, c))
  {
    match c
    case Quit => QuitAtNamespaceKeepsInv(groups, delete, m, i);
    case Yes => DeleteNamespaceKeepsInv(groups, delete, m, i);
    case No => SkipNamespaceKeepsInv(groups, delete, m, i);
    case Select => SelectNamespaceKeepsInv(groups, delete, m, i);
    case Invalid =>
  }

  /** Every choice at a resource prompt keeps the invariant. */
  lemma ResourceStepKeepsInv(groups: seq<seq<OrphanRecord>>, delete: (string, string) -> bool, m: Machine, i: nat, j: nat, c: Choice)
    requires Inv(groups, delete, m) && m.phase == Selecting(i, j)
    ensures Inv(groups, delete, ResourceStep(groups, delete, m, i, j, c))
  {
    match c
    case Quit => QuitAtResourceKeepsInv(groups, delete, m, i, j);
    case Yes => DeleteResourceKeepsInv(groups, delete, m, i, j);
    case No => SkipResourceKeepsInv(groups, delete, m, i, j);
    case _ =>
  }

  /** Every answer keeps the invariant. */
  lemma StepKeepsInv(groups: seq<seq<OrphanRecord>>, delete: (string, string) -> bool, m: Machine, command: string)
    requires Inv(groups, delete, m) && !m.phase.Finished?
    ensures Inv(groups, delete, Step(groups, delete, m, command))
  {
    match m.phase
    case AtNamespace(i) => NamespaceStepKeepsInv(groups, delete, m, i, NamespaceCommand(command));
    case Selecting(i, j) => ResourceStepKeepsInv(groups, delete, m, i, j, ResourceCommand(command));
  }

  /**
   * The counters of a report count a prefix of the walk, and every delete call
   * was made for an orphan in that prefix.
   */
  ghost predicate CountsPassed(groups: seq<seq<OrphanRecord>>, r: CleanupReport) {
    r.deleted + r.skipped <= |Flatten(groups)|
    && Subseq(Attempted(r.attempts), Flatten(groups)[..r.deleted + r.skipped])
  }

  /** What a walk kept in its invariant holds of the report it returns. */
  ghost predicate ReportInv(groups: seq<seq<OrphanRecord>>, delete: (string, string) -> bool, r: CleanupReport) {
    r.deleted == Successes(r.attempts)
    && Faithful(delete, r.attempts)
    && Subseq(Attempted(r.attempts), Flatten(groups))
    && CountsPassed(groups, r)
    && (r.outcome == Completed ==> r.deleted + r.skipped == |Flatten(groups)|)
    && (r.outcome.AbortedAtNamespace? ==>
          r.outcome.summaryDeleted == r.deleted
          && r.outcome.summaryDeleted + r.outcome.summarySkipped == |Flatten(groups)|
          && exists p: Phase | p.AtNamespace? :: PassedExactly(groups, r.attempts, r.deleted, r.skipped, p))
    && (r.outcome == AbortedInSelect ==>
          exists p: Phase | p.Selecting? :: PassedExactly(groups, r.attempts, r.deleted, r.skipped, p))
    && (r.outcome == InputExhausted ==>
          exists p: Phase :: PassedExactly(groups, r.attempts, r.deleted, r.skipped, p))
    && r.outcome != NothingToClean
  }

  /**
   * Counters that account for the orphans passed before a prompt count a
   * prefix of the walk, and the delete calls lie within that prefix.
   */
  lemma PassedPrefix(groups: seq<seq<OrphanRecord>>, attempts: seq<Attempt>, deleted: nat, skipped: nat, p: Phase)
    requires PassedExactly(groups, attempts, deleted, skipped, p)
    ensures deleted + skipped <= |Flatten(groups)|
    ensures Subseq(Attempted(attempts), Flatten(groups)[..deleted + skipped])
  {
    WalkedIsPrefix(groups, p);
    var rest :| Walked(groups, p) + rest == Flatten(groups);
    assert Flatten(groups)[..deleted + skipped] == Walked(groups, p);
  }

  /** A walk that stopped at prompt `p`, by a quit or for want of answers, reports the orphans passed before `p`. */
  lemma StoppedReportInv(groups: seq<seq<OrphanRecord>>, delete: (string, string) -> bool,
                         attempts: seq<Attempt>, deleted: nat, skipped: nat, k: nat, outcome: Outcome, p: Phase)
    requires deleted == Successes(attempts) && Faithful(delete, attempts)
    requires PassedExactly(groups, attempts, deleted, skipped, p)
    requires match outcome
             case AbortedAtNamespace(d, s) => p.AtNamespace? && d == deleted && d + s == |Flatten(groups)|
             case AbortedInSelect => p.Selecting?
             case InputExhausted => true
             case _ => false
    ensures ReportInv(groups, delete, CleanupReport(attempts, deleted, skipped, k, outcome))
  {
    WalkOn(groups, Attempted(attempts), p);
    PassedPrefix(groups, attempts, deleted, skipped, p);
  }

  /** A finished walk that keeps the invariant reports what it kept. */
  lemma FinishedReportInv(groups: seq<seq<OrphanRecord>>, delete: (string, string) -> bool, m: Machine, k: nat)
    requires Inv(groups, delete, m) && m.phase.Finished?
    ensures ReportInv(groups, delete, CleanupReport(m.attempts, m.deleted, m.skipped, k, m.phase.outcome))
  {
    match m.phase.outcome
    case Completed =>
      WalkOn(groups, Attempted(m.attempts), m.phase);
      assert Flatten(groups)[..m.deleted + m.skipped] == Flatten(groups);
    case AbortedAtNamespace(_, _) =>
      var p: Phase :| p.AtNamespace? && PassedExactly(groups, m.attempts, m.deleted, m.skipped, p);
      StoppedReportInv(groups, delete, m.attempts, m.deleted, m.skipped, k, m.phase.outcome, p);
    case AbortedInSelect =>
      var p: Phase :| p.Selecting? && PassedExactly(groups, m.attempts, m.deleted, m.skipped, p);
      StoppedReportInv(groups, delete, m.attempts, m.deleted, m.skipped, k, m.phase.outcome, p);
  }

  /** A walk that runs out of answers at a prompt reports the orphans passed before that prompt. */
  lemma ExhaustedReportInv(groups: seq<seq<OrphanRecord>>, delete: (string, string) -> bool, m: Machine, k: nat)
    requires Inv(groups, delete, m) && !m.phase.Finished?
    ensures ReportInv(groups, delete, CleanupReport(m.attempts, m.deleted, m.skipped, k, InputExhausted))
  {
    assert PassedExactly(groups, m.attempts, m.deleted, m.skipped, m.phase);
    StoppedReportInv(groups, delete, m.attempts, m.deleted, m.skipped, k, InputExhausted, m.phase);
  }

  /** Running from a state that keeps the invariant returns a report that keeps it. */
  lemma {:induction false} RunKeepsInv(groups: seq<seq<OrphanRecord>>, delete: (string, string) -> bool, m: Machine,
                                       answers: seq<string>, k: nat)
    requires Inv(groups, delete, m) && k <= |answers|
    ensures ReportInv(groups, delete, Run(groups, delete, m, answers, k))
    decreases |answers| - k
  {
    if m.phase.Finished? {
      assert Run(groups, delete, m, answers, k) == CleanupReport(m.attempts, m.deleted, m.skipped, k, m.phase.outcome);
      FinishedReportInv(groups, delete, m, k);
    } else if k == |answers| {
      assert Run(groups, delete, m, answers, k) == CleanupReport(m.attempts, m.deleted, m.skipped, k, InputExhausted);
      ExhaustedReportInv(groups, delete, m, k);
    } else {
      var next := Step(groups, delete, m, answers[k]);
      assert Run(groups, delete, m, answers, k) == Run(groups, delete, next, answers, k + 1);
      StepKeepsInv(groups, delete, m, answers[k]);
      RunKeepsInv(groups, delete, next, answers, k + 1);
    }
  }

  /** The walk reads the answers from position `k` on and no further than the last one. */
  lemma {:induction false} RunConsumes(groups: seq<seq<OrphanRecord>>, delete: (string, string) -> bool, m: Machine,
                                       answers: seq<string>, k: nat)
    requires ValidPhase(groups, m.phase) && k <= |answers|
    ensures k <= Run(groups, delete, m, answers, k).consumed <= |answers|
    decreases |answers| - k
  {
    if !m.phase.Finished? && k < |answers| {
      RunConsumes(groups, delete, Step(groups, delete, m, answers[k]), answers, k + 1);
    }
  }

  /** Once finished, further answers change nothing: after a quit no delete call is made. */
  lemma FinishedRunStops(groups: seq<seq<OrphanRecord>>, delete: (string, string) -> bool, m: Machine,
                         answers: seq<string>, k: nat)
    requires m.phase.Finished? && k <= |answers|
    ensures Run(groups, delete, m, answers, k).attempts == m.attempts
    ensures Run(groups, delete, m, answers, k).consumed == k
  {
  }

  /** An answer the current prompt does not recognise changes nothing: the prompt is repeated. */
  lemma InvalidAnswerReprompts(groups: seq<seq<OrphanRecord>>, delete: (string, string) -> bool, m: Machine,
                               answers: seq<string>, k: nat)
    requires ValidPhase(groups, m.phase) && !m.phase.Finished? && k < |answers|
    requires m.phase.AtNamespace? ==> NamespaceCommand(answers[k]) == Invalid
    requires m.phase.Selecting? ==> ResourceCommand(answers[k]) == Invalid
    ensures Step(groups, delete, m, answers[k]) == m
    ensures Run(groups, delete, m, answers, k) == Run(groups, delete, m, answers, k + 1)
  {
  }

  /**
   * What the cleanup guarantees, whatever the answers and the delete results:
   * - with no orphans nothing is asked and nothing deleted;
   * - `deleted_count` is the number of successful delete calls, and each
   *   recorded result is the delete call's answer;
   * - delete calls are made only for listed orphans, each at most once, in
   *   ascending namespace order and, within a namespace, in list order;
   * - on completion every orphan is counted as deleted or skipped;
   * - a quit at a namespace prompt reports totals that still cover every orphan;
   * - whatever the outcome, the two counters add up to the number of orphans
   *   the walk passed: those before the namespace prompt where `q` was
   *   answered, before the resource prompt where `q` was answered, or before
   *   the prompt left without an answer; the delete calls lie among them.
   */
  lemma CleanupGuarantees(orphans: seq<OrphanRecord>, inputs: seq<string>, delete: (string, string) -> bool)
    ensures orphans == [] ==> Cleanup(orphans, inputs, delete) == CleanupReport([], 0, 0, 0, NothingToClean)
    ensures orphans != [] ==> Cleanup(orphans, inputs, delete).outcome != NothingToClean
    ensures Cleanup(orphans, inputs, delete).consumed <= |inputs|
    ensures Cleanup(orphans, inputs, delete).deleted == Successes(Cleanup(orphans, inputs, delete).attempts)
    ensures Faithful(delete, Cleanup(orphans, inputs, delete).attempts)
    ensures multiset(Attempted(Cleanup(orphans, inputs, delete).attempts)) <= multiset(orphans)
    ensures Subseq(Attempted(Cleanup(orphans, inputs, delete).attempts), Flatten(Groups(orphans)))
    ensures NamespacesAscend(Attempted(Cleanup(orphans, inputs, delete).attempts))
    ensures Cleanup(orphans, inputs, delete).outcome == Completed ==>
              Cleanup(orphans, inputs, delete).deleted + Cleanup(orphans, inputs, delete).skipped == |orphans|
    ensures Cleanup(orphans, inputs, delete).outcome.AbortedAtNamespace? ==>
              Cleanup(orphans, inputs, delete).outcome.summaryDeleted == Cleanup(orphans, inputs, delete).deleted
              && Cleanup(orphans, inputs, delete).outcome.summaryDeleted
                 + Cleanup(orphans, inputs, delete).outcome.summarySkipped == |orphans|
    ensures Cleanup(orphans, inputs, delete).deleted + Cleanup(orphans, inputs, delete).skipped <= |orphans|
    ensures CountsPassed(Groups(orphans), Cleanup(orphans, inputs, delete))
    ensures var r := Cleanup(orphans, inputs, delete);
            r.outcome.AbortedAtNamespace? ==>
              exists p: Phase | p.AtNamespace? :: PassedExactly(Groups(orphans), r.attempts, r.deleted, r.skipped, p)
    ensures var r := Cleanup(orphans, inputs, delete);
            r.outcome == AbortedInSelect ==>
              exists p: Phase | p.Selecting? :: PassedExactly(Groups(orphans), r.attempts, r.deleted, r.skipped, p)
    ensures var r := Cleanup(orphans, inputs, delete);
            r.outcome == InputExhausted ==>
              exists p: Phase :: PassedExactly(Groups(orphans), r.attempts, r.deleted, r.skipped, p)
  {
    var r := Cleanup(orphans, inputs, delete);
    var groups := Groups(orphans);
    GroupsPermutation(orphans);
    FlattenGroupsAscend(orphans, SortedNamespaces(orphans));
    if orphans == [] {
      assert Flatten(groups) == [];
      assert Subseq(Attempted([]), Flatten(groups));
    } else {
      var m := Machine(AtNamespaceOrDone(groups, 0), [], 0, 0);
      assert |Flatten(groups)| > 0;
      assert groups != [];
      assert groups[..0] == [];
      RunKeepsInv(groups, delete, m, Answers(inputs), 0);
      RunConsumes(groups, delete, m, Answers(inputs), 0);
    }
    SubseqMultiset(Attempted(r.attempts), Flatten(groups));
    SubseqAscends(Attempted(r.attempts), Flatten(groups));
  }

  // ---------------------------------------------------------------------------
  // Worked scenarios
  // ---------------------------------------------------------------------------

  /** A single orphan makes a single group. */
  lemma GroupsOfOne(o: OrphanRecord)
    ensures Groups([o]) == [[o]]
  {
    assert [o][..0] == [];
    assert SortedNamespaces([o]) == [o.namespace];
    assert InNamespace([o], o.namespace) == [o];
  }

  /** Answering ` Y` for the only orphan's namespace deletes it and completes the walk. */
  lemma YesDeletesTheOnlyOrphan(o: OrphanRecord, delete: (string, string) -> bool)
    requires delete(o.namespace, o.name)
    ensures Cleanup([o], [" Y"], delete) == CleanupReport([Attempt(o, true)], 1, 0, 1, Completed)
  {
    GroupsOfOne(o);
    NormalizePadded([' '], 'Y', []);
    assert [' '] + ['Y'] + [] == " Y";
    assert Answers([" Y"])[0] == "y";
    assert DeleteAll([o], delete, Machine(AtNamespace(0), [], 0, 0)).attempts == [Attempt(o, true)];
  }

  /** Answering `q` at the first of two namespaces deletes nothing and reports both orphans as skipped. */
  lemma QuitAtFirstNamespace(a: OrphanRecord, b: OrphanRecord, delete: (string, string) -> bool)
    requires a.namespace != b.namespace
    ensures Cleanup([a, b], ["q"], delete) == CleanupReport([], 0, 0, 1, AbortedAtNamespace(0, 2))
  {
    GroupsPermutation([a, b]);
    var groups := Groups([a, b]);
    assert |Flatten(groups)| == 2;
    assert groups != [];
    assert groups[0..] == groups;
    NormalizePadded([], 'q', []);
    assert [] + ['q'] + [] == "q";
    var answers := Answers(["q"]);
    assert answers[0] == "q";
    var m := Machine(AtNamespace(0), [], 0, 0);
    AnsweredAtNamespace(groups, delete, m, 0, answers, 0, Quit);
  }

  /** At the prompt of a lone orphan, `s` and then `q` stop the walk at the resource prompt. */
  lemma SelectThenQuit(o: OrphanRecord, delete: (string, string) -> bool, answers: seq<string>)
    requires |answers| == 2 && answers[0] == "s" && answers[1] == "q"
    ensures Run([[o]], delete, Machine(AtNamespace(0), [], 0, 0), answers, 0) == CleanupReport([], 0, 0, 2, AbortedInSelect)
  {
    var m := Machine(AtNamespace(0), [], 0, 0);
    AnsweredAtNamespace([[o]], delete, m, 0, answers, 0, Select);
    AnsweredAtResource([[o]], delete, m.(phase := Selecting(0, 0)), 0, 0, answers, 1, Quit);
  }

  /** The answers `s`, `Q` as the program compares them. */
  lemma AnswersSelectQuit()
    ensures Answers(["s", "Q"]) == ["s", "q"]
  {
    var answers := Answers(["s", "Q"]);
    NormalizePadded([], 's', []);
    assert [] + ['s'] + [] == "s";
    assert answers[0] == "s";
    NormalizePadded([], 'Q', []);
    assert [] + ['Q'] + [] == "Q";
    assert answers[1] == "q";
  }

  /** Selecting one by one and then answering `Q` stops at the resource prompt with no summary. */
  lemma QuitWhileSelecting(o: OrphanRecord, delete: (string, string) -> bool)
    ensures Cleanup([o], ["s", "Q"], delete) == CleanupReport([], 0, 0, 2, AbortedInSelect)
  {
    GroupsOfOne(o);
    AnswersSelectQuit();
    SelectThenQuit(o, delete, ["s", "q"]);
  }

  /** The walk of `y` then `q` over two namespaces: the first namespace's delete calls, then the abort. */
  lemma YesThenQuitRun(g1: seq<OrphanRecord>, g2: seq<OrphanRecord>, delete: (string, string) -> bool, answers: seq<string>)
    requires |answers| == 2 && answers[0] == "y" && answers[1] == "q"
    ensures var d := DeleteAll(g1, delete, Machine(AtNamespace(0), [], 0, 0));
            Run([g1, g2], delete, Machine(AtNamespace(0), [], 0, 0), answers, 0)
            == CleanupReport(d.attempts, d.deleted, d.skipped, 2, AbortedAtNamespace(d.deleted, d.skipped + |g2|))
  {
    var groups := [g1, g2];
    var m := Machine(AtNamespace(0), [], 0, 0);
    AnsweredAtNamespace(groups, delete, m, 0, answers, 0, Yes);
    var d := DeleteAll(g1, delete, m);
    DeleteAllEffect(g1, delete, m);
    var m' := d.(phase := AtNamespace(1));
    assert NamespaceStep(groups, delete, m, 0, Yes) == m';
    AnsweredAtNamespace(groups, delete, m', 1, answers, 1, Quit);
    assert groups[1..] == [g2];
    assert Flatten([g2]) == g2 by {
      assert [g2][..0] == [];
    }
  }

  /**
   * Two namespaces, `y` at the first and `q` at the second: every orphan of
   * the first gets a delete call, none of the second does, and the abort
   * summary counts the second namespace as skipped.
   */
  lemma YesThenQuit(g1: seq<OrphanRecord>, g2: seq<OrphanRecord>, delete: (string, string) -> bool, answers: seq<string>)
    requires |answers| == 2 && answers[0] == "y" && answers[1] == "q"
    ensures var r := Run([g1, g2], delete, Machine(AtNamespace(0), [], 0, 0), answers, 0);
            Attempted(r.attempts) == g1 && Faithful(delete, r.attempts)
            && r.deleted == Successes(r.attempts) && r.deleted + r.skipped == |g1|
            && r.outcome == AbortedAtNamespace(r.deleted, r.skipped + |g2|) && r.consumed == 2
  {
    var m := Machine(AtNamespace(0), [], 0, 0);
    YesThenQuitRun(g1, g2, delete, answers);
    DeleteAllEffect(g1, delete, m);
    assert Attempted(m.attempts) + g1 == g1;
  }

  /** The walk of `s`, `y`, `n`, `y` over one namespace of three orphans. */
  lemma SelectYesNoYesRun(a: OrphanRecord, b: OrphanRecord, c: OrphanRecord, delete: (string, string) -> bool,
                          answers: seq<string>)
    requires answers == ["s", "y", "n", "y"]
    ensures var m1 := Machine(Selecting(0, 0), [], 0, 0);
            var m3 := DeleteOne(a, delete, m1).(phase := Selecting(0, 2), skipped := DeleteOne(a, delete, m1).skipped + 1);
            var r := DeleteOne(c, delete, m3);
            Run([[a, b, c]], delete, Machine(AtNamespace(0), [], 0, 0), answers, 0)
            == CleanupReport(r.attempts, r.deleted, r.skipped, 4, Completed)
  {
    var groups := [[a, b, c]];
    var m0 := Machine(AtNamespace(0), [], 0, 0);
    AnsweredAtNamespace(groups, delete, m0, 0, answers, 0, Select);
    var m1 := m0.(phase := Selecting(0, 0));
    AnsweredAtResource(groups, delete, m1, 0, 0, answers, 1, Yes);
    var m2 := DeleteOne(a, delete, m1).(phase := Selecting(0, 1));
    AnsweredAtResource(groups, delete, m2, 0, 1, answers, 2, No);
    var m3 := m2.(phase := Selecting(0, 2), skipped := m2.skipped + 1);
    AnsweredAtResource(groups, delete, m3, 0, 2, answers, 3, Yes);
  }

  /**
   * One namespace of three orphans, answered `s`, then `y`, `n`, `y`: delete
   * calls for the first and the third only, the second skipped by choice.
   */
  lemma SelectYesNoYes(a: OrphanRecord, b: OrphanRecord, c: OrphanRecord, delete: (string, string) -> bool,
                       answers: seq<string>)
    requires answers == ["s", "y", "n", "y"]
    ensures var r := Run([[a, b, c]], delete, Machine(AtNamespace(0), [], 0, 0), answers, 0);
            Attempted(r.attempts) == [a, c] && Faithful(delete, r.attempts)
            && r.deleted == Successes(r.attempts) && r.deleted + r.skipped == 3
            && r.outcome == Completed && r.consumed == 4
  {
    SelectYesNoYesRun(a, b, c, delete, answers);
    var m1 := Machine(Selecting(0, 0), [], 0, 0);
    DeleteOneEffect(a, delete, m1);
    var m3 := DeleteOne(a, delete, m1).(phase := Selecting(0, 2), skipped := DeleteOne(a, delete, m1).skipped + 1);
    DeleteOneEffect(c, delete, m3);
    assert Attempted(m1.attempts) == [];
  }

  // ---------------------------------------------------------------------------
  // The program's loops
  // ---------------------------------------------------------------------------

  /** `sorted(keys)`: the keys in ascending order. */
  method SortNamespaces(keys: set<string>) returns (sorted: seq<string>)
    ensures StrictlySorted(sorted)
    ensures forall ns :: ns in sorted <==> ns in keys
  {
    sorted := [];
    var rest := keys;
    while rest != {}
      invariant rest <= keys
      invariant StrictlySorted(sorted)
      invariant forall ns :: ns in sorted <==> ns in keys && ns !in rest
      decreases rest
    {
      var ns :| ns in rest;
      sorted := InsertSorted(sorted, ns);
      rest := rest - {ns};
    }
  }

  /** `by_namespace`: each namespace of the orphans mapped to its orphans in list order. */
  method GroupByNamespace(orphans: seq<OrphanRecord>) returns (byNamespace: map<string, seq<OrphanRecord>>)
    ensures forall ns :: ns in byNamespace <==> HasNamespace(orphans, ns)
    ensures forall ns | ns in byNamespace :: byNamespace[ns] == InNamespace(orphans, ns)
  {
    byNamespace := map[];
    for i := 0 to |orphans|
      invariant forall ns :: ns in byNamespace <==> HasNamespace(orphans[..i], ns)
      invariant forall ns | ns in byNamespace :: byNamespace[ns] == InNamespace(orphans[..i], ns)
    {
      var o := orphans[i];
      assert orphans[..i + 1] == orphans[..i] + [o];
      assert orphans[..i + 1][..i] == orphans[..i];
      InNamespaceEmpty(orphans[..i], o.namespace);
      var current := if o.namespace in byNamespace then byNamespace[o.namespace] else [];
      byNamespace := byNamespace[o.namespace := current + [o]];
    }
    assert orphans[..|orphans|] == orphans;
  }

  /** `answers[i]` is input line `i` lower-cased and stripped, known for a line once it is read. */
  ghost predicate Transcribes(answers: seq<string>, inputs: seq<string>) {
    |answers| == |inputs| && forall i {:trigger Normalize(inputs[i])} | 0 <= i < |inputs| :: answers[i] == Normalize(inputs[i])
  }

  /** `by_namespace[namespaces[k]]` is group `k` of the walk. */
  ghost predicate GroupedAs(byNamespace: map<string, seq<OrphanRecord>>, namespaces: seq<string>,
                            groups: seq<seq<OrphanRecord>>) {
    |namespaces| == |groups|
    && forall k | 0 <= k < |namespaces| :: namespaces[k] in byNamespace && byNamespace[namespaces[k]] == groups[k]
  }

  /** The map built by `GroupByNamespace`, read in the order `SortNamespaces` gives, is the walk's groups. */
  lemma SortedMapIsGroups(orphans: seq<OrphanRecord>, byNamespace: map<string, seq<OrphanRecord>>, namespaces: seq<string>)
    requires forall ns :: ns in byNamespace <==> HasNamespace(orphans, ns)
    requires forall ns | ns in byNamespace :: byNamespace[ns] == InNamespace(orphans, ns)
    requires StrictlySorted(namespaces) && forall ns :: ns in namespaces <==> ns in byNamespace.Keys
    ensures GroupedAs(byNamespace, namespaces, Groups(orphans))
  {
    SortedUnique(namespaces, SortedNamespaces(orphans));
  }

  /** `sum(len(by_namespace[n]) for n in namespaces[i:])`: the orphans of the namespaces from `i` on. */
  method CountRemaining(byNamespace: map<string, seq<OrphanRecord>>, namespaces: seq<string>, i: nat,
                        ghost groups: seq<seq<OrphanRecord>>) returns (remaining: nat)
    requires GroupedAs(byNamespace, namespaces, groups) && i <= |namespaces|
    ensures remaining == |Flatten(groups[i..])|
  {
    remaining := 0;
    assert groups[i..i] == [];
    for k := i to |namespaces|
      invariant remaining == |Flatten(groups[i..k])|
    {
      FlattenPrefixStep(groups[i..], k - i);
      assert groups[i..][..k - i] == groups[i..k];
      assert groups[i..][..k - i + 1] == groups[i..k + 1];
      remaining := remaining + |byNamespace[namespaces[k]]|;
    }
    assert groups[i..|namespaces|] == groups[i..];
  }

  /** `y` at a namespace: a delete call for each orphan of `g` in order, counting successes and failures. */
  method DeleteGroup(g: seq<OrphanRecord>, delete: (string, string) -> bool, ghost phase: Phase,
                     attempts: seq<Attempt>, deleted: nat, skipped: nat)
    returns (attempts': seq<Attempt>, deleted': nat, skipped': nat)
    ensures Machine(phase, attempts', deleted', skipped') == DeleteAll(g, delete, Machine(phase, attempts, deleted, skipped))
  {
    attempts', deleted', skipped' := attempts, deleted, skipped;
    for k := 0 to |g|
      invariant Machine(phase, attempts', deleted', skipped') == DeleteAll(g[..k], delete, Machine(phase, attempts, deleted, skipped))
    {
      assert g[..k + 1][..k] == g[..k];
      var o := g[k];
      var ok := delete(o.namespace, o.name);
      if ok {
        deleted' := deleted' + 1;
      } else {
        skipped' := skipped' + 1;
      }
      attempts' := attempts' + [Attempt(o, ok)];
    }
    assert g[..|g|] == g;
  }

  /**
   * The prompt for resource `k` of namespace `n`, repeated until answered:
   * either the walk stops here with report `stop`, or it goes on to the next
   * resource (or namespace) from the returned state.
   */
  method PromptResource(o: OrphanRecord, inputs: seq<string>, ghost answers: seq<string>, delete: (string, string) -> bool,
                        ghost groups: seq<seq<OrphanRecord>>, ghost n: nat, ghost k: nat,
                        attempts: seq<Attempt>, deleted: nat, skipped: nat, next: nat)
    returns (attempts': seq<Attempt>, deleted': nat, skipped': nat, next': nat, stop: Option<CleanupReport>)
    requires Transcribes(answers, inputs)
    requires n < |groups| && k < |groups[n]| && o == groups[n][k] && next <= |inputs|
    ensures next' <= |inputs|
    ensures var before := Run(groups, delete, Machine(Selecting(n, k), attempts, deleted, skipped), answers, next);
            if stop.Some? then stop.value == before
            else before == Run(groups, delete,
                   Machine(if k + 1 < |groups[n]| then Selecting(n, k + 1) else AtNamespaceOrDone(groups, n + 1),
                           attempts', deleted', skipped'), answers, next')
  {
    ghost var m := Machine(Selecting(n, k), attempts, deleted, skipped);
    ghost var before := Run(groups, delete, m, answers, next);
    ghost var nextPhase := if k + 1 < |groups[n]| then Selecting(n, k + 1) else AtNamespaceOrDone(groups, n + 1);
    attempts', deleted', skipped', next', stop := attempts, deleted, skipped, next, None;
    while true
      invariant next' <= |inputs|
      invariant before == Run(groups, delete, m, answers, next')
      invariant attempts' == attempts && deleted' == deleted && skipped' == skipped && stop == None
      decreases |inputs| - next'
    {
      if next' == |inputs| {
        stop := Some(CleanupReport(attempts, deleted, skipped, next', InputExhausted));
        return;
      }
      var individualChoice := Normalize(inputs[next']);
      next' := next' + 1;
      if individualChoice == "q" {
        AnsweredAtResource(groups, delete, m, n, k, answers, next' - 1, Quit);
        stop := Some(CleanupReport(attempts, deleted, skipped, next', AbortedInSelect));
        return;
      } else if individualChoice == "y" {
        AnsweredAtResource(groups, delete, m, n, k, answers, next' - 1, Yes);
        var ok := delete(o.namespace, o.name);
        if ok {
          deleted' := deleted' + 1;
        } else {
          skipped' := skipped' + 1;
        }
        attempts' := attempts' + [Attempt(o, ok)];
        assert Machine(nextPhase, attempts', deleted', skipped') == DeleteOne(o, delete, m).(phase := nextPhase);
        break;
      } else if individualChoice == "n" {
        AnsweredAtResource(groups, delete, m, n, k, answers, next' - 1, No);
        skipped' := skipped' + 1;
        assert Machine(nextPhase, attempts', deleted', skipped') == m.(phase := nextPhase, skipped := m.skipped + 1);
        break;
      } else {
        AnsweredAtResource(groups, delete, m, n, k, answers, next' - 1, Invalid);
      }
    }
  }

  /** An answer asking for `c` at a resource prompt is read, and the walk goes on from what `c` does. */
  lemma AnsweredAtResource(groups: seq<seq<OrphanRecord>>, delete: (string, string) -> bool, m: Machine, n: nat, j: nat,
                           answers: seq<string>, k: nat, c: Choice)
    requires n < |groups| && j < |groups[n]| && m.phase == Selecting(n, j) && k < |answers|
    requires c == ResourceCommand(answers[k])
    ensures ValidPhase(groups, ResourceStep(groups, delete, m, n, j, c).phase)
    ensures Run(groups, delete, m, answers, k) == Run(groups, delete, ResourceStep(groups, delete, m, n, j, c), answers, k + 1)
  {
  }

  /** `s` at namespace `n`: the prompt for each resource in turn, unless one of them stops the walk. */
  method SelectResources(nsOrphans: seq<OrphanRecord>, inputs: seq<string>, ghost answers: seq<string>, delete: (string, string) -> bool,
                         ghost groups: seq<seq<OrphanRecord>>, ghost n: nat,
                         attempts: seq<Attempt>, deleted: nat, skipped: nat, next: nat)
    returns (attempts': seq<Attempt>, deleted': nat, skipped': nat, next': nat, stop: Option<CleanupReport>)
    requires Transcribes(answers, inputs)
    requires n < |groups| && nsOrphans == groups[n] && next <= |inputs|
    ensures next' <= |inputs|
    ensures var before := Run(groups, delete,
                Machine(if 0 < |groups[n]| then Selecting(n, 0) else AtNamespaceOrDone(groups, n + 1),
                        attempts, deleted, skipped), answers, next);
            if stop.Some? then stop.value == before
            else before == Run(groups, delete, Machine(AtNamespaceOrDone(groups, n + 1), attempts', deleted', skipped'), answers, next')
  {
    ghost var before := Run(groups, delete,
      Machine(if 0 < |groups[n]| then Selecting(n, 0) else AtNamespaceOrDone(groups, n + 1),
              attempts, deleted, skipped), answers, next);
    attempts', deleted', skipped', next', stop := attempts, deleted, skipped, next, None;
    for k := 0 to |nsOrphans|
      invariant next' <= |inputs| && stop == None
      invariant before == Run(groups, delete,
        Machine(if k < |nsOrphans| then Selecting(n, k) else AtNamespaceOrDone(groups, n + 1),
                attempts', deleted', skipped'), answers, next')
    {
      attempts', deleted', skipped', next', stop :=
        PromptResource(nsOrphans[k], inputs, answers, delete, groups, n, k, attempts', deleted', skipped', next');
      if stop.Some? {
        return;
      }
    }
  }

  /**
   * The prompt for namespace `n`, repeated until answered: either the walk
   * stops with report `stop`, or it goes on to the next namespace from the
   * returned state.
   */
  method PromptNamespace(byNamespace: map<string, seq<OrphanRecord>>, namespaces: seq<string>, n: nat,
                         inputs: seq<string>, ghost answers: seq<string>, delete: (string, string) -> bool, ghost groups: seq<seq<OrphanRecord>>,
                         attempts: seq<Attempt>, deleted: nat, skipped: nat, next: nat)
    returns (attempts': seq<Attempt>, deleted': nat, skipped': nat, next': nat, stop: Option<CleanupReport>)
    requires Transcribes(answers, inputs)
    requires GroupedAs(byNamespace, namespaces, groups) && n < |namespaces| && next <= |inputs|
    ensures next' <= |inputs|
    ensures var before := Run(groups, delete, Machine(AtNamespace(n), attempts, deleted, skipped), answers, next);
            if stop.Some? then stop.value == before
            else before == Run(groups, delete, Machine(AtNamespaceOrDone(groups, n + 1), attempts', deleted', skipped'), answers, next')
  {
    var nsOrphans := byNamespace[namespaces[n]];
    ghost var m := Machine(AtNamespace(n), attempts, deleted, skipped);
    ghost var before := Run(groups, delete, m, answers, next);
    attempts', deleted', skipped', next', stop := attempts, deleted, skipped, next, None;
    while true
      invariant next' <= |inputs|
      invariant before == Run(groups, delete, m, answers, next')
      invariant attempts' == attempts && deleted' == deleted && skipped' == skipped
      decreases |inputs| - next'
    {
      if next' == |inputs| {
        stop := Some(CleanupReport(attempts, deleted, skipped, next', InputExhausted));
        return;
      }
      var choice := Normalize(inputs[next']);
      next' := next' + 1;
      if choice == "q" {
        AnsweredAtNamespace(groups, delete, m, n, answers, next' - 1, Quit);
        var remaining := CountRemaining(byNamespace, namespaces, n, groups);
        stop := Some(CleanupReport(attempts, deleted, skipped, next', AbortedAtNamespace(deleted, skipped + remaining)));
        return;
      } else if choice == "y" {
        AnsweredAtNamespace(groups, delete, m, n, answers, next' - 1, Yes);
        attempts', deleted', skipped' := DeleteGroup(nsOrphans, delete, AtNamespace(n), attempts, deleted, skipped);
        assert Machine(AtNamespaceOrDone(groups, n + 1), attempts', deleted', skipped')
               == DeleteAll(groups[n], delete, m).(phase := AtNamespaceOrDone(groups, n + 1));
        return;
      } else if choice == "n" {
        AnsweredAtNamespace(groups, delete, m, n, answers, next' - 1, No);
        skipped' := skipped + |nsOrphans|;
        assert Machine(AtNamespaceOrDone(groups, n + 1), attempts', deleted', skipped')
               == m.(phase := AtNamespaceOrDone(groups, n + 1), skipped := m.skipped + |groups[n]|);
        return;
      } else if choice == "s" {
        AnsweredAtNamespace(groups, delete, m, n, answers, next' - 1, Select);
        attempts', deleted', skipped', next', stop :=
          SelectResources(nsOrphans, inputs, answers, delete, groups, n, attempts, deleted, skipped, next');
        assert Machine(if 0 < |groups[n]| then Selecting(n, 0) else AtNamespaceOrDone(groups, n + 1), attempts, deleted, skipped)
               == m.(phase := if 0 < |groups[n]| then Selecting(n, 0) else AtNamespaceOrDone(groups, n + 1));
        return;
      } else {
        AnsweredAtNamespace(groups, delete, m, n, answers, next' - 1, Invalid);
      }
    }
  }

  /** An answer asking for `c` at a namespace prompt is read, and the walk goes on from what `c` does. */
  lemma AnsweredAtNamespace(groups: seq<seq<OrphanRecord>>, delete: (string, string) -> bool, m: Machine, n: nat,
                            answers: seq<string>, k: nat, c: Choice)
    requires n < |groups| && m.phase == AtNamespace(n) && k < |answers| && c == NamespaceCommand(answers[k])
    ensures ValidPhase(groups, NamespaceStep(groups, delete, m, n, c).phase)
    ensures Run(groups, delete, m, answers, k) == Run(groups, delete, NamespaceStep(groups, delete, m, n, c), answers, k + 1)
  {
  }

  /** The walk over the sorted namespaces, from the first prompt to the end or to a stop. */
  method WalkNamespaces(byNamespace: map<string, seq<OrphanRecord>>, namespaces: seq<string>,
                        inputs: seq<string>, ghost answers: seq<string>, delete: (string, string) -> bool, ghost groups: seq<seq<OrphanRecord>>)
    returns (report: CleanupReport)
    requires Transcribes(answers, inputs)
    requires GroupedAs(byNamespace, namespaces, groups)
    ensures report == Run(groups, delete, Machine(AtNamespaceOrDone(groups, 0), [], 0, 0), answers, 0)
  {
    ghost var result := Run(groups, delete, Machine(AtNamespaceOrDone(groups, 0), [], 0, 0), answers, 0);
    var deleted: nat, skipped: nat := 0, 0;
    var attempts: seq<Attempt> := [];
    var next: nat := 0;
    for n := 0 to |namespaces|
      invariant next <= |inputs|
      invariant result == Run(groups, delete, Machine(AtNamespaceOrDone(groups, n), attempts, deleted, skipped), answers, next)
    {
      var stop;
      attempts, deleted, skipped, next, stop :=
        PromptNamespace(byNamespace, namespaces, n, inputs, answers, delete, groups, attempts, deleted, skipped, next);
      if stop.Some? {
        return stop.value;
      }
    }
    report := CleanupReport(attempts, deleted, skipped, next, Completed);
  }

  /**
   * `cleanup_orphans_interactive`: groups the orphans by namespace, walks the
   * sorted namespaces reading answers from `inputs` and calling `delete`, and
   * returns the calls made, the two counters, the number of answers read and
   * how the walk ended.
   */
  method CleanupOrphansInteractive(orphans: seq<OrphanRecord>, inputs: seq<string>, delete: (string, string) -> bool)
    returns (report: CleanupReport)
    ensures report == Cleanup(orphans, inputs, delete)
    ensures orphans == [] ==> report.attempts == [] && report.consumed == 0
    ensures report.deleted == Successes(report.attempts) && Faithful(delete, report.attempts)
    ensures multiset(Attempted(report.attempts)) <= multiset(orphans)
    ensures NamespacesAscend(Attempted(report.attempts))
    ensures report.outcome == Completed ==> report.deleted + report.skipped == |orphans|
    ensures report.outcome.AbortedAtNamespace? ==>
              report.outcome.summaryDeleted == report.deleted
              && report.outcome.summaryDeleted + report.outcome.summarySkipped == |orphans|
    ensures report.deleted + report.skipped <= |orphans|
    ensures CountsPassed(Groups(orphans), report)
    ensures report.outcome == AbortedInSelect ==>
              exists p: Phase | p.Selecting? :: PassedExactly(Groups(orphans), report.attempts, report.deleted, report.skipped, p)
    ensures report.outcome == InputExhausted ==>
              exists p: Phase :: PassedExactly(Groups(orphans), report.attempts, report.deleted, report.skipped, p)
  {
    if |orphans| == 0 {
      report := CleanupReport([], 0, 0, 0, NothingToClean);
    } else {
      var byNamespace := GroupByNamespace(orphans);
      var namespaces := SortNamespaces(byNamespace.Keys);
      SortedMapIsGroups(orphans, byNamespace, namespaces);
      report := WalkNamespaces(byNamespace, namespaces, inputs, Answers(inputs), delete, Groups(orphans));
    }
    CleanupGuarantees(orphans, inputs, delete);
  }
}
