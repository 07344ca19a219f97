/**
 * Two blocks of `to_top` in chemlab/md/potential.py, the writer of a GROMACS
 * topology: the `[ nonbondparams ]` rows, written once per ordered pair of
 * atom types, and the `[ system ]` molecule list, the run-length encoding of
 * the system's molecule names.
 *
 * As written, `to_top` never reaches these blocks: its first `comment` call
 * goes through `line`, which raises `NameError` (`Potential.LineAsWritten`).
 * The models here describe what `to_top` computes once `line` is fixed.
 *
 * The rows are modelled as data; their text is `Line` applied to the row's
 * fields, and the decimal rendering of numbers (`str` of a float) is not
 * part of this model.
 */
module Topology {
  import opened Seqs
  import opened Potential

  /* ------------------------------------------------------ nonbondparams */

  /** A `[ nonbondparams ]` row: `i j func V W` with the function type fixed to 1. */
  datatype NonbondRow = NonbondRow(typeI: string, typeJ: string, sigma: real, eps: real)

  /** The ordered type pair a row is keyed by. */
  function Key(row: NonbondRow): (string, string) {
    (row.typeI, row.typeJ)
  }

  function Keys(rows: seq<NonbondRow>): (r: seq<(string, string)>)
    ensures |r| == |rows| && forall k :: 0 <= k < |rows| ==> r[k] == Key(rows[k])
  {
    seq(|rows|, k requires 0 <= k < |rows| => Key(rows[k]))
  }

  /**
   * `name_to_type`, filled from the particles in order by the
   * `[ atomtypes ]` loop; a later particle with the same name overrides.
   */
  function NameToType(ps: seq<ChargedLJ>): (m: map<string, string>)
    ensures forall i :: 0 <= i < |ps| ==> ps[i].name in m
    ensures forall name :: name in m ==> exists i :: 0 <= i < |ps| && ps[i].name == name
  {
    if ps == [] then map[]
    else NameToType(ps[..|ps| - 1])[ps[|ps| - 1].name := ps[|ps| - 1].atomType]
  }

  /** A name is mapped to the type of the last particle with that name: later writes override. */
  lemma {:induction false} NameToTypeLastWins(ps: seq<ChargedLJ>, i: nat)
    requires i < |ps| && forall j :: i < j < |ps| ==> ps[j].name != ps[i].name
    ensures NameToType(ps)[ps[i].name] == ps[i].atomType
  {
    var front := ps[..|ps| - 1];
    if i < |ps| - 1 {
      assert front[i] == ps[i];
      NameToTypeLastWins(front, i);
    }
  }

  /**
   * The row for one pair interaction: `(name_to_type[p0], name_to_type[p1])`
   * with its sigma and eps, or `KeyError` for the first unknown name.
   */
  function TypedRow(p: PairInteraction, nameToType: map<string, string>): Result<NonbondRow> {
    if p.pair.0 !in nameToType then Err(KeyError(p.pair.0))
    else if p.pair.1 !in nameToType then Err(KeyError(p.pair.1))
    else Ok(NonbondRow(nameToType[p.pair.0], nameToType[p.pair.1], p.sigma, p.eps))
  }

  /** The rows the `pairs_added` loop writes, or its first error. */
  function Dedup(pairs: seq<PairInteraction>, nameToType: map<string, string>): Result<seq<NonbondRow>> {
    if pairs == [] then Ok([])
    else
      match Dedup(pairs[..|pairs| - 1], nameToType)
      case Err(e) => Err(e)
      case Ok(rows) =>
        match TypedRow(pairs[|pairs| - 1], nameToType)
        case Err(e) => Err(e)
        case Ok(row) => if Key(row) in Keys(rows) then Ok(rows) else Ok(rows + [row])
  }

  /** The de-duplication on its own: keep each row whose key has not been seen. */
  function FirstOccurrences(rows: seq<NonbondRow>): seq<NonbondRow> {
    if rows == [] then []
    else
      var kept := FirstOccurrences(rows[..|rows| - 1]);
      if Key(rows[|rows| - 1]) in Keys(kept) then kept else kept + [rows[|rows| - 1]]
  }

  /** Every name of every pair has a type. */
  predicate AllTyped(pairs: seq<PairInteraction>, nameToType: map<string, string>) {
    forall k :: 0 <= k < |pairs| ==> pairs[k].pair.0 in nameToType && pairs[k].pair.1 in nameToType
  }

  /** The rows of all pairs, before de-duplication. */
  function TypedRows(pairs: seq<PairInteraction>, nameToType: map<string, string>): (r: seq<NonbondRow>)
    requires AllTyped(pairs, nameToType)
    ensures |r| == |pairs| && forall k :: 0 <= k < |pairs| ==> Ok(r[k]) == TypedRow(pairs[k], nameToType)
  {
    seq(|pairs|, k requires 0 <= k < |pairs| => TypedRow(pairs[k], nameToType).value)
  }

  /**
   * The loop fails exactly when some pair names an untyped particle, and
   * otherwise writes the first occurrences of the pairs' rows.
   */
  lemma {:induction false} DedupResult(pairs: seq<PairInteraction>, nameToType: map<string, string>)
    ensures Dedup(pairs, nameToType).Ok? <==> AllTyped(pairs, nameToType)
    ensures AllTyped(pairs, nameToType) ==>
      Dedup(pairs, nameToType) == Ok(FirstOccurrences(TypedRows(pairs, nameToType)))
  {
    if pairs != [] {
      var front := pairs[..|pairs| - 1];
      DedupResult(front, nameToType);
      assert forall k :: 0 <= k < |front| ==> front[k] == pairs[k];
      if AllTyped(pairs, nameToType) {
        assert TypedRows(pairs, nameToType)[..|pairs| - 1] == TypedRows(front, nameToType);
      }
    }
  }

  /** Each ordered type pair is written at most once. */
  lemma {:induction false} FirstOccurrencesUnique(rows: seq<NonbondRow>)
    ensures NoDup(Keys(FirstOccurrences(rows)))
  {
    if rows != [] {
      FirstOccurrencesUnique(rows[..|rows| - 1]);
    }
  }

  /** The written rows are rows of the input, in input order. */
  lemma {:induction false} FirstOccurrencesInOrder(rows: seq<NonbondRow>)
    ensures IsSubseq(FirstOccurrences(rows), rows)
  {
    if rows != [] {
      var front, last := rows[..|rows| - 1], rows[|rows| - 1];
      FirstOccurrencesInOrder(front);
      FirstOccurrencesSnoc(front, last);
      FrontLast(rows);
      var kept := FirstOccurrences(front);
      if Key(last) in Keys(kept) {
        SubseqSnoc(kept, front, last);
      } else {
        SubseqBoth(kept, front, last);
      }
    }
  }

  /** Every type pair of the input is written, and no other. */
  lemma {:induction false} FirstOccurrencesKeys(rows: seq<NonbondRow>)
    ensures forall key :: key in Keys(FirstOccurrences(rows)) <==> key in Keys(rows)
  {
    if rows != [] {
      var front, last := rows[..|rows| - 1], rows[|rows| - 1];
      FirstOccurrencesKeys(front);
      FirstOccurrencesSnoc(front, last);
      FrontLast(rows);
      KeysSnoc(front, last);
      KeysSnoc(FirstOccurrences(front), last);
    }
  }

  lemma KeysSnoc(rows: seq<NonbondRow>, row: NonbondRow)
    ensures Keys(rows + [row]) == Keys(rows) + [Key(row)]
  {
  }

  /** One more row is kept exactly when its type pair is new. */
  lemma FirstOccurrencesSnoc(rows: seq<NonbondRow>, row: NonbondRow)
    ensures FirstOccurrences(rows + [row]) ==
      if Key(row) in Keys(FirstOccurrences(rows)) then FirstOccurrences(rows) else FirstOccurrences(rows) + [row]
  {
    assert (rows + [row])[..|rows|] == rows;
  }

  /** A type pair no earlier row has is kept, and it is the only kept row with that pair. */
  lemma NewKeyKept(front: seq<NonbondRow>, last: NonbondRow)
    requires forall i :: 0 <= i < |front| ==> Key(front[i]) != Key(last)
    ensures FirstOccurrences(front + [last]) == FirstOccurrences(front) + [last]
    ensures forall k :: 0 <= k < |FirstOccurrences(front)| ==> Key(FirstOccurrences(front)[k]) != Key(last)
  {
    var kept := FirstOccurrences(front);
    FirstOccurrencesKeys(front);
    assert Key(last) !in Keys(front);
    FirstOccurrencesSnoc(front, last);
    forall k | 0 <= k < |kept| ensures Key(kept[k]) != Key(last) {
      assert Keys(kept)[k] == Key(kept[k]);
    }
  }

  /** The row written for a type pair is the first input row with that pair: its sigma and eps win. */
  lemma {:induction false} FirstOccurrenceWins(rows: seq<NonbondRow>, j: nat)
    requires j < |rows| && forall i :: 0 <= i < j ==> Key(rows[i]) != Key(rows[j])
    ensures rows[j] in FirstOccurrences(rows)
    ensures forall k :: 0 <= k < |FirstOccurrences(rows)| && Key(FirstOccurrences(rows)[k]) == Key(rows[j]) ==>
      FirstOccurrences(rows)[k] == rows[j]
  {
    var front, last := rows[..|rows| - 1], rows[|rows| - 1];
    assert rows == front + [last];
    if j == |rows| - 1 {
      NewKeyKept(front, last);
    } else {
      assert rows[j] == front[j];
      FirstOccurrenceWins(front, j);
      var kept := FirstOccurrences(front);
      FirstOccurrencesSnoc(front, last);
      if Key(last) !in Keys(kept) {
        var k :| 0 <= k < |kept| && kept[k] == rows[j];
        assert Keys(kept)[k] == Key(rows[j]);
      }
    }
  }

  /** A `for` loop over `potential.intermolecular.pairs` with the `pairs_added` set. */
  method NonbondParams(pairs: seq<PairInteraction>, nameToType: map<string, string>)
    returns (r: Result<seq<NonbondRow>>)
    ensures r == Dedup(pairs, nameToType)
  {
    var pairsAdded: set<(string, string)> := {};
    var rows: seq<NonbondRow> := [];
    var k := 0;
    while k < |pairs|
      invariant 0 <= k <= |pairs|
      invariant Dedup(pairs[..k], nameToType) == Ok(rows)
      invariant forall key :: key in pairsAdded <==> key in Keys(rows)
    {
      var pairInteraction := pairs[k];
      assert pairs[..k + 1][..k] == pairs[..k];
      if pairInteraction.pair.0 !in nameToType {
        r := Err(KeyError(pairInteraction.pair.0));
        DedupPrefixErr(pairs, nameToType, k + 1);
        return;
      }
      if pairInteraction.pair.1 !in nameToType {
        r := Err(KeyError(pairInteraction.pair.1));
        DedupPrefixErr(pairs, nameToType, k + 1);
        return;
      }
      var pair := (nameToType[pairInteraction.pair.0], nameToType[pairInteraction.pair.1]);
      if pair !in pairsAdded {
        pairsAdded := pairsAdded + {pair};
        rows := rows + [NonbondRow(pair.0, pair.1, pairInteraction.sigma, pairInteraction.eps)];
        assert Keys(rows) == Keys(rows[..|rows| - 1]) + [pair];
      }
      k := k + 1;
    }
    assert pairs[..k] == pairs;
    r := Ok(rows);
  }

  /** One more pair: its row is appended unless its type pair was already written. */
  lemma DedupSnoc(pairs: seq<PairInteraction>, p: PairInteraction, nameToType: map<string, string>)
    requires Dedup(pairs, nameToType).Ok? && TypedRow(p, nameToType).Ok?
    ensures var rows, row := Dedup(pairs, nameToType).value, TypedRow(p, nameToType).value;
      Dedup(pairs + [p], nameToType) == if Key(row) in Keys(rows) then Ok(rows) else Ok(rows + [row])
  {
    assert (pairs + [p])[..|pairs|] == pairs;
  }

  lemma {:induction false} DedupPrefixErr(pairs: seq<PairInteraction>, nameToType: map<string, string>, n: nat)
    requires n <= |pairs| && Dedup(pairs[..n], nameToType).Err?
    ensures Dedup(pairs, nameToType) == Dedup(pairs[..n], nameToType)
    decreases |pairs| - n
  {
    if n < |pairs| {
      assert pairs[..n + 1][..n] == pairs[..n];
      DedupPrefixErr(pairs, nameToType, n + 1);
    } else {
      assert pairs[..n] == pairs;
    }
  }

  /**
   * The pairs `InterMolecular.pairs` builds never raise `KeyError` here:
   * every particle's name was entered into `name_to_type`.
   */
  lemma PairsAreTyped(ps: seq<ChargedLJ>, sqrt: real -> real)
    requires InRange(Combinations(|ps|), |ps|) && PairsAlong(ps, Combinations(|ps|), sqrt).Ok?
    ensures Dedup(PairsAlong(ps, Combinations(|ps|), sqrt).value, NameToType(ps)).Ok?
  {
    var c := Combinations(|ps|);
    PairsAlongResult(ps, c, sqrt);
    var pairs := PairsAlong(ps, c, sqrt).value;
    var m := NameToType(ps);
    forall k | 0 <= k < |pairs| ensures pairs[k].pair.0 in m && pairs[k].pair.1 in m {
      assert pairs[k].pair == (ps[c[k].0].name, ps[c[k].1].name);
    }
    DedupResult(pairs, m);
  }

  /** A pair whose type pair is new appends its row. */
  lemma DedupAppend(pairs: seq<PairInteraction>, p: PairInteraction, nameToType: map<string, string>,
                    rows: seq<NonbondRow>, row: NonbondRow)
    requires Dedup(pairs, nameToType) == Ok(rows) && TypedRow(p, nameToType) == Ok(row)
    requires Key(row) !in Keys(rows)
    ensures Dedup(pairs + [p], nameToType) == Ok(rows + [row])
  {
    DedupSnoc(pairs, p, nameToType);
  }

  /** Particles `a`, `b`, `c` of types A, B, A. */
  const ExampleTypes: map<string, string> := map["a" := "A", "b" := "B", "c" := "A"]

  lemma ExampleTypedRows(sigma: real, eps: real)
    ensures TypedRow(PairInteraction(("a", "b"), sigma, eps), ExampleTypes) == Ok(NonbondRow("A", "B", sigma, eps))
    ensures TypedRow(PairInteraction(("a", "c"), sigma, eps), ExampleTypes) == Ok(NonbondRow("A", "A", sigma, eps))
    ensures TypedRow(PairInteraction(("b", "c"), sigma, eps), ExampleTypes) == Ok(NonbondRow("B", "A", sigma, eps))
  {
  }

  /**
   * The pairs are ordered: with particles of types A, B, A, the pairs
   * (a, b), (a, c), (b, c) give three rows, (A, B), (A, A) and (B, A).
   */
  lemma OrderedTypePairs(sigma: real, eps: real)
    ensures var pairs := [PairInteraction(("a", "b"), sigma, eps), PairInteraction(("a", "c"), sigma, eps),
                          PairInteraction(("b", "c"), sigma, eps)];
      Dedup(pairs, ExampleTypes).Ok? &&
      Keys(Dedup(pairs, ExampleTypes).value) == [("A", "B"), ("A", "A"), ("B", "A")]
  {
    var m := ExampleTypes;
    var p0, p1, p2 := PairInteraction(("a", "b"), sigma, eps), PairInteraction(("a", "c"), sigma, eps),
                      PairInteraction(("b", "c"), sigma, eps);
    var row0, row1, row2 := NonbondRow("A", "B", sigma, eps), NonbondRow("A", "A", sigma, eps), NonbondRow("B", "A", sigma, eps);
    ExampleTypedRows(sigma, eps);
    assert Dedup([], m) == Ok([]);
    DedupAppend([], p0, m, [], row0);
    assert [] + [p0] == [p0] && [] + [row0] == [row0];
    DedupAppend([p0], p1, m, [row0], row1);
    assert [p0] + [p1] == [p0, p1] && [row0] + [row1] == [row0, row1];
    DedupAppend([p0, p1], p2, m, [row0, row1], row2);
    assert [p0, p1] + [p2] == [p0, p1, p2] && [row0, row1] + [row2] == [row0, row1, row2];
  }

  /* ------------------------------------------------------------- system */

  /** `n` copies of `t`. */
  function Copies<T>(t: T, n: nat): seq<T> {
    if n == 0 then [] else Copies(t, n - 1) + [t]
  }

  /** Expands a `(name, count)` list back into the names it encodes. */
  function Expand<T(==)>(rl: seq<(T, nat)>): seq<T> {
    if rl == [] then [] else Expand(rl[..|rl| - 1]) + Copies(rl[|rl| - 1].0, rl[|rl| - 1].1)
  }

  /** A molecule list as the writer produces it: positive counts, no two neighbours with one name. */
  ghost predicate Canonical<T>(rl: seq<(T, nat)>) {
    (forall k :: 0 <= k < |rl| ==> rl[k].1 >= 1) &&
    (forall k :: 0 < k < |rl| ==> rl[k - 1].0 != rl[k].0)
  }

  /** The run-length encoding of the names, as the `[ system ]` loop builds it. */
  function RunLength<T(==)>(names: seq<T>): seq<(T, nat)> {
    if names == [] then []
    else
      var rest := RunLength(names[..|names| - 1]);
      var t := names[|names| - 1];
      if rest != [] && rest[|rest| - 1].0 == t then rest[..|rest| - 1] + [(t, rest[|rest| - 1].1 + 1)]
      else rest + [(t, 1)]
  }

  lemma ExpandSnoc<T>(rl: seq<(T, nat)>, x: (T, nat))
    ensures Expand(rl + [x]) == Expand(rl) + Copies(x.0, x.1)
  {
    assert (rl + [x])[..|rl|] == rl;
  }

  /** No names give an empty list; otherwise the last entry is for the last name. */
  lemma RunLengthLast<T>(names: seq<T>)
    ensures names == [] <==> RunLength(names) == []
    ensures names != [] ==> RunLength(names)[|RunLength(names)| - 1].0 == names[|names| - 1]
  {
  }

  /** Adding one to the last count expands to one more copy of its name. */
  lemma ExpandBump<T>(rl: seq<(T, nat)>)
    requires rl != []
    ensures Expand(rl[..|rl| - 1] + [(rl[|rl| - 1].0, rl[|rl| - 1].1 + 1)]) == Expand(rl) + [rl[|rl| - 1].0]
  {
    FrontLast(rl);
    ExpandBumpLast(rl[..|rl| - 1], rl[|rl| - 1].0, rl[|rl| - 1].1);
  }

  lemma ExpandBumpLast<T>(init: seq<(T, nat)>, t: T, n: nat)
    ensures Expand(init + [(t, n + 1)]) == Expand(init + [(t, n)]) + [t]
  {
    ExpandSnoc(init, (t, n));
    ExpandSnoc(init, (t, n + 1));
    assert Copies(t, n + 1) == Copies(t, n) + [t];
  }

  /** A new entry with count 1 expands to its name. */
  lemma ExpandNew<T>(rl: seq<(T, nat)>, t: T)
    ensures Expand(rl + [(t, 1)]) == Expand(rl) + [t]
  {
    ExpandSnoc(rl, (t, 1));
    assert Copies(t, 1) == [t];
  }

  /** Expanding `mollist` reproduces the names. */
  lemma {:induction false} RunLengthExpand<T>(names: seq<T>)
    ensures Expand(RunLength(names)) == names
  {
    if names != [] {
      var front, t := names[..|names| - 1], names[|names| - 1];
      RunLengthExpand(front);
      assert names == front + [t];
      RunLengthSnoc(front, t);
      var rest := RunLength(front);
      if rest != [] && rest[|rest| - 1].0 == t {
        ExpandBump(rest);
      } else {
        ExpandNew(rest, t);
      }
    }
  }

  /** Every count of `mollist` is at least 1 and neighbouring entries have different names. */
  lemma {:induction false} RunLengthCanonical<T>(names: seq<T>)
    ensures Canonical(RunLength(names))
  {
    if names != [] {
      var front, t := names[..|names| - 1], names[|names| - 1];
      RunLengthCanonical(front);
      var rest := RunLength(front);
      assert names == front + [t];
      RunLengthSnoc(front, t);
      if rest != [] && rest[|rest| - 1].0 == t {
        CanonicalBump(rest);
      } else {
        CanonicalPush(rest, t);
      }
    }
  }

  /** Adding one to the last count keeps a list canonical. */
  lemma CanonicalBump<T>(rl: seq<(T, nat)>)
    requires Canonical(rl) && rl != []
    ensures Canonical(rl[..|rl| - 1] + [(rl[|rl| - 1].0, rl[|rl| - 1].1 + 1)])
  {
    var r := rl[..|rl| - 1] + [(rl[|rl| - 1].0, rl[|rl| - 1].1 + 1)];
    assert forall k :: 0 <= k < |rl| - 1 ==> r[k] == rl[k];
  }

  /** A new entry with a different name and count 1 keeps a list canonical. */
  lemma CanonicalPush<T>(rl: seq<(T, nat)>, t: T)
    requires Canonical(rl) && (rl != [] ==> rl[|rl| - 1].0 != t)
    ensures Canonical(rl + [(t, 1)])
  {
    var r := rl + [(t, 1)];
    assert forall k :: 0 <= k < |rl| ==> r[k] == rl[k];
  }

  /** One more name either bumps the last count or starts a new entry. */
  lemma RunLengthSnoc<T>(names: seq<T>, t: T)
    ensures var rest := RunLength(names);
      RunLength(names + [t]) ==
        if rest != [] && rest[|rest| - 1].0 == t then rest[..|rest| - 1] + [(t, rest[|rest| - 1].1 + 1)]
        else rest + [(t, 1)]
  {
    assert (names + [t])[..|names|] == names;
  }

  lemma CopiesSnoc<T>(names: seq<T>, t: T, n: nat)
    ensures names + Copies(t, n + 1) == (names + Copies(t, n)) + [t]
  {
    assert Copies(t, n + 1) == Copies(t, n) + [t];
  }

  /** The encoding is the only canonical list that expands to the names: encoding a canonical list's expansion gives it back. */
  lemma {:induction false} RunLengthOfExpand<T>(rl: seq<(T, nat)>)
    requires Canonical(rl)
    ensures RunLength(Expand(rl)) == rl
  {
    if rl != [] {
      var init, last := rl[..|rl| - 1], rl[|rl| - 1];
      CanonicalFront(rl);
      RunLengthOfExpand(init);
      OfExpandStep(init, last.0, last.1 - 1);
      FrontLast(rl);
    }
  }

  /** An entry with a new name, appended to an encoding, is encoded back as itself. */
  lemma OfExpandStep<T>(init: seq<(T, nat)>, t: T, n: nat)
    requires RunLength(Expand(init)) == init && (init != [] ==> init[|init| - 1].0 != t)
    ensures RunLength(Expand(init + [(t, n + 1)])) == init + [(t, n + 1)]
  {
    ExpandSnoc(init, (t, n + 1));
    RunLengthCountUp(Expand(init), t, n);
  }

  /** Dropping the last entry keeps a list canonical, and the new last entry has a different name. */
  lemma CanonicalFront<T>(rl: seq<(T, nat)>)
    requires Canonical(rl) && rl != []
    ensures Canonical(rl[..|rl| - 1]) && rl[|rl| - 1].1 >= 1
    ensures |rl| >= 2 ==> rl[..|rl| - 1][|rl| - 2].0 != rl[|rl| - 1].0
  {
    var init := rl[..|rl| - 1];
    assert forall k :: 0 <= k < |init| ==> init[k] == rl[k];
  }

  /** Appending `n + 1` copies of a name that differs from the last encoded name adds one entry. */
  lemma {:induction false} RunLengthCountUp<T>(names: seq<T>, t: T, n: nat)
    requires RunLength(names) != [] ==> RunLength(names)[|RunLength(names)| - 1].0 != t
    ensures RunLength(names + Copies(t, n + 1)) == RunLength(names) + [(t, n + 1)]
  {
    if n == 0 {
      CountUpFirst(names, t);
    } else {
      RunLengthCountUp(names, t, n - 1);
      CountUpStep(names, t, n);
    }
  }

  /** One copy of a name that differs from the last encoded name adds an entry with count 1. */
  lemma CountUpFirst<T>(names: seq<T>, t: T)
    requires RunLength(names) != [] ==> RunLength(names)[|RunLength(names)| - 1].0 != t
    ensures RunLength(names + Copies(t, 1)) == RunLength(names) + [(t, 1)]
  {
    assert Copies(t, 1) == [t];
    RunLengthSnoc(names, t);
  }

  /** One more copy of the name of the last entry adds one to its count. */
  lemma CountUpStep<T>(names: seq<T>, t: T, n: nat)
    requires 1 <= n && RunLength(names + Copies(t, n)) == RunLength(names) + [(t, n)]
    ensures RunLength(names + Copies(t, n + 1)) == RunLength(names) + [(t, n + 1)]
  {
    var shorter := names + Copies(t, n);
    CopiesSnoc(names, t, n);
    RunLengthSnoc(shorter, t);
    SnocParts(RunLength(names), (t, n));
  }

  /**
   * The `[ system ]` loop over `system.molecule_name`. `current` starts as the
   * sentinel -1, here `None`, which no name equals; the sentinel entry
   * `(-1, 0)` the first name pushes, or the only entry when there are no
   * names, is removed by `pop(0)`.
   */
  method MoleculeList(names: seq<string>) returns (mollist: seq<(Option<string>, nat)>)
    ensures |mollist| == |RunLength(names)|
    ensures forall k :: 0 <= k < |mollist| ==>
      mollist[k] == (Some(RunLength(names)[k].0), RunLength(names)[k].1)
  {
    var counter: nat := 0;
    var current: Option<string> := None;
    mollist := [];
    var k := 0;
    while k < |names|
      invariant 0 <= k <= |names|
      invariant Pending(RunLength(names[..k]), mollist, current, counter)
    {
      var t := names[k];
      PendingNext(names, k, mollist, current, counter);
      if Some(t) != current {
        mollist := mollist + [(current, counter)];
        current := Some(t);
        counter := 0;
      }
      counter := counter + 1;
      k := k + 1;
    }
    PendingDone(names, mollist, current, counter);
    mollist := (mollist + [(current, counter)])[1..];
  }

  /**
   * The loop's state after some names. Before the first name nothing is
   * pending; afterwards `mollist` is the sentinel followed by all finished
   * entries, and `(current, counter)` is the entry in progress.
   */
  ghost predicate Pending<T>(rl: seq<(T, nat)>, mollist: seq<(Option<T>, nat)>,
                          current: Option<T>, counter: nat) {
    if rl == [] then mollist == [] && current == None && counter == 0
    else
      |mollist| == |rl| && mollist[0] == (None, 0) &&
      (forall j :: 1 <= j < |mollist| ==> mollist[j] == (Some(rl[j - 1].0), rl[j - 1].1)) &&
      current == Some(rl[|rl| - 1].0) && counter == rl[|rl| - 1].1
  }

  /** The loop body on the `k`-th name keeps `Pending` for the names seen so far. */
  lemma PendingNext<T>(names: seq<T>, k: nat, mollist: seq<(Option<T>, nat)>,
                       current: Option<T>, counter: nat)
    requires k < |names| && Pending(RunLength(names[..k]), mollist, current, counter)
    ensures Some(names[k]) != current ==>
      Pending(RunLength(names[..k + 1]), mollist + [(current, counter)], Some(names[k]), 1)
    ensures Some(names[k]) == current ==> Pending(RunLength(names[..k + 1]), mollist, current, counter + 1)
  {
    assert names[..k + 1] == names[..k] + [names[k]];
    PendingStep(names[..k], names[k], mollist, current, counter);
  }

  /** One loop iteration keeps `Pending` for the names seen so far. */
  lemma PendingStep<T>(names: seq<T>, t: T, mollist: seq<(Option<T>, nat)>,
                       current: Option<T>, counter: nat)
    requires Pending(RunLength(names), mollist, current, counter)
    ensures Some(t) != current ==> Pending(RunLength(names + [t]), mollist + [(current, counter)], Some(t), 1)
    ensures Some(t) == current ==> Pending(RunLength(names + [t]), mollist, current, counter + 1)
  {
    RunLengthSnoc(names, t);
    var rl := RunLength(names);
    if Some(t) != current {
      PendingPush(rl, t, mollist, current, counter);
    } else {
      PendingBump(rl, mollist, current, counter);
    }
  }

  /** A new name finishes the entry in progress and starts its own. */
  lemma PendingPush<T>(rl: seq<(T, nat)>, t: T, mollist: seq<(Option<T>, nat)>,
                       current: Option<T>, counter: nat)
    requires Pending(rl, mollist, current, counter)
    ensures Pending(rl + [(t, 1)], mollist + [(current, counter)], Some(t), 1)
  {
    var rl', mollist' := rl + [(t, 1)], mollist + [(current, counter)];
    forall j | 1 <= j < |mollist'| ensures mollist'[j] == (Some(rl'[j - 1].0), rl'[j - 1].1) {
      if j < |mollist| {
        assert mollist'[j] == mollist[j] && rl'[j - 1] == rl[j - 1];
      }
    }
  }

  /** The same name again adds one to the entry in progress. */
  lemma PendingBump<T>(rl: seq<(T, nat)>, mollist: seq<(Option<T>, nat)>,
                       current: Option<T>, counter: nat)
    requires Pending(rl, mollist, current, counter) && rl != []
    ensures Pending(rl[..|rl| - 1] + [(rl[|rl| - 1].0, rl[|rl| - 1].1 + 1)], mollist, current, counter + 1)
  {
    var rl' := rl[..|rl| - 1] + [(rl[|rl| - 1].0, rl[|rl| - 1].1 + 1)];
    assert forall j :: 0 <= j < |rl| - 1 ==> rl'[j] == rl[j];
  }

  /** After the loop, pushing the entry in progress and popping the sentinel leaves the encoding. */
  lemma PendingDone<T>(names: seq<T>, mollist: seq<(Option<T>, nat)>,
                    current: Option<T>, counter: nat)
    requires Pending(RunLength(names[..|names|]), mollist, current, counter)
    ensures |(mollist + [(current, counter)])[1..]| == |RunLength(names)|
    ensures forall k :: 0 <= k < |RunLength(names)| ==>
      (mollist + [(current, counter)])[1..][k] == (Some(RunLength(names)[k].0), RunLength(names)[k].1)
  {
    assert names[..|names|] == names;
    var rl := RunLength(names);
    assert Pending(rl, mollist, current, counter);
  }
}
