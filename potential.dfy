/**
 * The GROMACS force-field pieces of chemlab/md/potential.py: fixed-width
 * topology lines, atomic numbers, the Lorentz-Berthelot combining rule, and
 * the inter- and intra-molecular potentials built from dictionaries.
 *
 * The module is Python 2 code. Its exceptions become `Err` results, and its
 * dictionaries become sequences of `(key, value)` items in iteration order.
 * A key a dictionary may lack becomes an `Option` field.
 */
module Potential {
  import opened Geometry

  datatype Option<T> = None | Some(value: T)

  /** The Python exceptions the modelled code raises. */
  datatype Error = NameError(name: string) | ValueError(message: string) | KeyError(key: string)

  datatype Result<T> = Ok(value: T) | Err(error: Error)

  /* ---------------------------------------------------------------- line */

  /** The column width of `line`. */
  const Width: nat := 10

  function Spaces(n: nat): (s: string)
    ensures |s| == n && forall k :: 0 <= k < n ==> s[k] == ' '
  {
    seq(n, _ => ' ')
  }

  /** `s.rjust(width)`: spaces on the left up to `width`; never truncates. */
  function RJust(s: string, width: nat): (r: string)
    ensures |r| == if |s| < width then width else |s|
    ensures r[|r| - |s|..] == s && forall k :: 0 <= k < |r| - |s| ==> r[k] == ' '
  {
    if |s| < width then Spaces(width - |s|) + s else s
  }

  /** `s.ljust(width)`: spaces on the right up to `width`; never truncates. */
  function LJust(s: string, width: nat): (r: string)
    ensures |r| == if |s| < width then width else |s|
    ensures r[..|s|] == s && forall k :: |s| <= k < |r| ==> r[k] == ' '
  {
    if |s| < width then s + Spaces(width - |s|) else s
  }

  /** One column: the argument padded on the side `just` names. */
  function Pad(a: string, right: bool): string {
    if right then RJust(a, Width) else LJust(a, Width)
  }

  /** `''.join(str(a).rjust(10) for a in args)`, or with `ljust`. */
  function Columns(args: seq<string>, right: bool): string {
    if args == [] then "" else Pad(args[0], right) + Columns(args[1..], right)
  }

  /**
   * `line(*args, just=just)` as the function evidently means it: `args` are
   * the `str(a)` of the arguments; `just` defaults to "right".
   */
  function Line(args: seq<string>, just: string := "right"): (r: Result<string>)
    ensures r.Ok? <==> just == "right" || just == "left"
    ensures r.Err? ==> r.error == ValueError("just must be right or left")
    ensures r.Ok? ==> |r.value| >= 1 && r.value[|r.value| - 1] == '\n'
  {
    if just == "right" then Ok(Columns(args, true) + "\n")
    else if just == "left" then Ok(Columns(args, false) + "\n")
    else Err(ValueError("just must be right or left"))
  }

  /**
   * `line` as written: it looks up `just` in the keyword arguments, discards
   * the value, and then reads the unbound name `just`.
   */
  function LineAsWritten(args: seq<string>, kwargs: map<string, string>): Result<string> {
    var _ := if "just" in kwargs then kwargs["just"] else "right";
    Err(NameError("just"))
  }

  /**
   * Every call of `line` as written raises `NameError`, including the calls
   * whose intended result is a line: `line()` should give "\n".
   */
  lemma LineAsWrittenFails(args: seq<string>, kwargs: map<string, string>)
    ensures LineAsWritten(args, kwargs) == Err(NameError("just"))
    ensures Line([]) == Ok("\n") && LineAsWritten([], map[]) != Line([])
  {
    assert Columns([], true) + "\n" == "\n";
  }

  /** `comment(*args)`: a line behind a semicolon. */
  function Comment(args: seq<string>): (r: Result<string>)
    ensures r.Ok? && |r.value| >= 2 && r.value[0] == ';' && r.value[1..] == Line(args).value
  {
    match Line(args)
    case Ok(l) => Ok(";" + l)
    case Err(e) => Err(e)
  }

  /* Reading a line back, the partner of `Line`. */

  function StripLeading(s: string): (r: string)
    ensures |r| <= |s| && (r == [] || r[0] != ' ')
  {
    if s != [] && s[0] == ' ' then StripLeading(s[1..]) else s
  }

  function StripTrailing(s: string): (r: string)
    ensures |r| <= |s| && (r == [] || r[|r| - 1] != ' ')
  {
    if s != [] && s[|s| - 1] == ' ' then StripTrailing(s[..|s| - 1]) else s
  }

  /** Cuts a line body into consecutive `Width`-character columns. */
  function Cut(body: string): seq<string>
    decreases |body|
  {
    if body == [] then []
    else if |body| <= Width then [body]
    else [body[..Width]] + Cut(body[Width..])
  }

  /** Reads the fields of a line: drop the newline, cut into columns, strip the padding. */
  function ParseLine(l: string, just: string): seq<string> {
    var body := if l != [] && l[|l| - 1] == '\n' then l[..|l| - 1] else l;
    var cols := Cut(body);
    seq(|cols|, k requires 0 <= k < |cols| => if just == "right" then StripLeading(cols[k]) else StripTrailing(cols[k]))
  }

  /** An argument `line` can write and read back: it fits a column and is not padded on the justified side. */
  predicate Fits(a: string, right: bool) {
    |a| <= Width && (a == [] || (if right then a[0] != ' ' else a[|a| - 1] != ' '))
  }

  lemma {:induction false} StripLeadingSpaces(n: nat, a: string)
    requires a == [] || a[0] != ' '
    ensures StripLeading(Spaces(n) + a) == a
  {
    if n > 0 {
      StripLeadingSpaces(n - 1, a);
      assert (Spaces(n) + a)[1..] == Spaces(n - 1) + a;
    }
  }

  lemma {:induction false} StripTrailingSpaces(n: nat, a: string)
    requires a == [] || a[|a| - 1] != ' '
    ensures StripTrailing(a + Spaces(n)) == a
  {
    if n > 0 {
      StripTrailingSpaces(n - 1, a);
      assert (a + Spaces(n))[..|a| + n - 1] == a + Spaces(n - 1);
    }
  }

  /** A fitting argument's column is exactly `Width` wide and strips back to the argument. */
  lemma PadStrip(a: string, right: bool)
    requires Fits(a, right)
    ensures |Pad(a, right)| == Width
    ensures right ==> StripLeading(Pad(a, right)) == a
    ensures !right ==> StripTrailing(Pad(a, right)) == a
  {
    if right {
      if |a| < Width {
        StripLeadingSpaces(Width - |a|, a);
      } else {
        StripLeadingSpaces(0, a);
        assert Spaces(0) + a == a;
      }
    } else {
      if |a| < Width {
        StripTrailingSpaces(Width - |a|, a);
      } else {
        StripTrailingSpaces(0, a);
        assert a + Spaces(0) == a;
      }
    }
  }

  lemma CutCons(head: string, rest: string)
    requires |head| == Width
    ensures Cut(head + rest) == [head] + Cut(rest)
  {
    var body := head + rest;
    if |body| <= Width {
      assert rest == [] && body == head;
    } else {
      assert body[..Width] == head && body[Width..] == rest;
    }
  }

  /** The columns of a line are exactly `Width` characters each, and cutting gives each argument's column back. */
  ghost predicate CutsBack(args: seq<string>, right: bool) {
    |Columns(args, right)| == Width * |args| &&
    |Cut(Columns(args, right))| == |args| &&
    forall k :: 0 <= k < |args| ==> Cut(Columns(args, right))[k] == Pad(args[k], right)
  }

  /** If the tail of the arguments cuts back, so do the arguments with a fitting head. */
  lemma CutColumnsStep(args: seq<string>, right: bool)
    requires args != [] && Fits(args[0], right) && CutsBack(args[1..], right)
    ensures CutsBack(args, right)
  {
    PadStrip(args[0], right);
    CutCons(Pad(args[0], right), Columns(args[1..], right));
    var cols := Cut(Columns(args, right));
    assert cols == [Pad(args[0], right)] + Cut(Columns(args[1..], right));
    forall k | 0 <= k < |args| ensures cols[k] == Pad(args[k], right) {
      if k > 0 {
        assert args[1..][k - 1] == args[k];
      }
    }
  }

  lemma {:induction false} CutColumns(args: seq<string>, right: bool)
    requires forall k :: 0 <= k < |args| ==> Fits(args[k], right)
    ensures |Columns(args, right)| == Width * |args|
    ensures |Cut(Columns(args, right))| == |args|
    ensures forall k :: 0 <= k < |args| ==> Cut(Columns(args, right))[k] == Pad(args[k], right)
  {
    if args != [] {
      assert forall k :: 0 <= k < |args[1..]| ==> args[1..][k] == args[k + 1];
      CutColumns(args[1..], right);
      CutColumnsStep(args, right);
    }
  }

  /**
   * Round trip: a line of fitting arguments is `Width` characters per
   * argument plus the newline, and reading it back gives the arguments.
   */
  lemma LineRoundTrip(args: seq<string>, just: string)
    requires just == "right" || just == "left"
    requires forall k :: 0 <= k < |args| ==> Fits(args[k], just == "right")
    ensures Line(args, just).Ok? && |Line(args, just).value| == Width * |args| + 1
    ensures ParseLine(Line(args, just).value, just) == args
  {
    var right := just == "right";
    var l := Columns(args, right) + "\n";
    assert Line(args, just) == Ok(l);
    assert l[..|l| - 1] == Columns(args, right);
    CutColumns(args, right);
    var cols := Cut(Columns(args, right));
    var parsed := ParseLine(l, just);
    assert |parsed| == |cols|;
    forall k | 0 <= k < |args| ensures parsed[k] == args[k] {
      PadStrip(args[k], right);
    }
  }

  /* ----------------------------------------------------------- atomic_no */

  /**
   * `atomic_no(atom)`: `_symbols.index(atom)`, the position of the first
   * occurrence; `ValueError` when the symbol is absent. The symbol table
   * comes from the chemlab database and is a parameter here.
   */
  function AtomicNo(symbols: seq<string>, atom: string): (r: Result<nat>)
    ensures r.Ok? <==> atom in symbols
    ensures r.Ok? ==> r.value < |symbols| && symbols[r.value] == atom
    ensures r.Ok? ==> forall k :: 0 <= k < r.value ==> symbols[k] != atom
    ensures r.Err? ==> r.error == ValueError("'" + atom + "' is not in list")
  {
    if symbols == [] then Err(ValueError("'" + atom + "' is not in list"))
    else if symbols[0] == atom then Ok(0)
    else
      match AtomicNo(symbols[1..], atom)
      case Ok(n) => Ok(n + 1)
      case Err(e) => Err(e)
  }

  /* ------------------------------------------- combine_lorentz_berthelot */

  /**
   * `combine_lorentz_berthelot`: `((sigma1 + sigma2)/2, (eps1*eps2)**0.5)`.
   * Python 2 raises `ValueError` for a negative number to a fractional
   * power.
   */
  function CombineLorentzBerthelot(sigma1: real, sigma2: real, eps1: real, eps2: real,
                                   sqrt: real -> real): (r: Result<(real, real)>)
    ensures r.Err? <==> eps1 * eps2 < 0.0
    ensures r.Err? ==> r.error == ValueError("negative number cannot be raised to a fractional power")
  {
    if eps1 * eps2 < 0.0 then Err(ValueError("negative number cannot be raised to a fractional power"))
    else Ok(((sigma1 + sigma2) / 2.0, sqrt(eps1 * eps2)))
  }

  /** The combined sigma is the arithmetic mean and the combined eps the geometric mean. */
  lemma CombineMeans(sigma1: real, sigma2: real, eps1: real, eps2: real, sqrt: real -> real)
    requires IsSqrt(sqrt) && 0.0 <= eps1 * eps2
    ensures var r := CombineLorentzBerthelot(sigma1, sigma2, eps1, eps2, sqrt);
      r.Ok? && r.value.0 - sigma1 == sigma2 - r.value.0 &&
      (sigma1 <= sigma2 ==> sigma1 <= r.value.0 <= sigma2) &&
      0.0 <= r.value.1 && Sq(r.value.1) == eps1 * eps2
  {
  }

  /** The rule does not depend on the order of the two particles. */
  lemma CombineSymmetric(sigma1: real, sigma2: real, eps1: real, eps2: real, sqrt: real -> real)
    ensures CombineLorentzBerthelot(sigma2, sigma1, eps2, eps1, sqrt) ==
            CombineLorentzBerthelot(sigma1, sigma2, eps1, eps2, sqrt)
  {
    assert eps2 * eps1 == eps1 * eps2;
  }

  /* ------------------------------------------------------ InterMolecular */

  /** `ChargedLJ`: a particle with its charge, atom type and Lennard-Jones parameters. */
  datatype ChargedLJ = ChargedLJ(name: string, q: real, atomType: string, sigma: real, eps: real)

  /** `PairInteraction`: the names of two particles and their combined parameters. */
  datatype PairInteraction = PairInteraction(pair: (string, string), sigma: real, eps: real)

  /** One value of the "nonbonded" dictionary; a missing key is `None`. */
  datatype AtomSpec = AtomSpec(q: Option<real>, atomType: Option<string>, sigma: Option<real>, eps: Option<real>)

  /**
   * `ChargedLJ(name, atomspec['q'], atomspec['type'], atomspec['sigma'], atomspec['eps'])`:
   * the keys are read left to right, so the first missing one is the `KeyError`.
   */
  function ParticleOf(name: string, spec: AtomSpec): Result<ChargedLJ> {
    if spec.q.None? then Err(KeyError("q"))
    else if spec.atomType.None? then Err(KeyError("type"))
    else if spec.sigma.None? then Err(KeyError("sigma"))
    else if spec.eps.None? then Err(KeyError("eps"))
    else Ok(ChargedLJ(name, spec.q.value, spec.atomType.value, spec.sigma.value, spec.eps.value))
  }

  predicate Complete(spec: AtomSpec) {
    spec.q.Some? && spec.atomType.Some? && spec.sigma.Some? && spec.eps.Some?
  }

  /** The particles `InterMolecular.from_dict` builds, or its first error. */
  function ParticlesFromDict(data: seq<(string, AtomSpec)>): Result<seq<ChargedLJ>> {
    if data == [] then Ok([])
    else
      match ParticlesFromDict(data[..|data| - 1])
      case Err(e) => Err(e)
      case Ok(prev) =>
        match ParticleOf(data[|data| - 1].0, data[|data| - 1].1)
        case Err(e) => Err(e)
        case Ok(p) => Ok(prev + [p])
  }

  /**
   * `from_dict` succeeds exactly when every entry has all four keys, and then
   * builds one particle per entry, in order, named by its key.
   */
  lemma {:induction false} ParticlesFromDictResult(data: seq<(string, AtomSpec)>)
    ensures ParticlesFromDict(data).Ok? <==> forall k :: 0 <= k < |data| ==> Complete(data[k].1)
    ensures ParticlesFromDict(data).Ok? ==>
      |ParticlesFromDict(data).value| == |data| &&
      forall k :: 0 <= k < |data| ==>
        ParticlesFromDict(data).value[k] ==
          ChargedLJ(data[k].0, data[k].1.q.value, data[k].1.atomType.value, data[k].1.sigma.value, data[k].1.eps.value)
  {
    if data != [] {
      var front := data[..|data| - 1];
      ParticlesFromDictResult(front);
      assert forall k :: 0 <= k < |front| ==> front[k] == data[k];
    }
  }

  /** `itertools.combinations(range(n), 2)` from first index `i` on. */
  function CombinationsFrom(i: nat, n: nat): seq<(nat, nat)>
    decreases n - i
  {
    if i >= n then []
    else seq(n - 1 - i, k requires 0 <= k < n - 1 - i => (i, i + 1 + k)) + CombinationsFrom(i + 1, n)
  }

  /** The index pairs `itertools.combinations` yields for `n` items, in its order. */
  function Combinations(n: nat): seq<(nat, nat)> {
    CombinationsFrom(0, n)
  }

  /** Pairs are lexicographically ordered: by first index, then by second. */
  predicate LexBefore(p: (nat, nat), q: (nat, nat)) {
    p.0 < q.0 || (p.0 == q.0 && p.1 < q.1)
  }

  /** The first row of `CombinationsFrom(i, n)`: the pairs `(i, j)` for `i < j < n`. */
  lemma CombinationsFromSplit(i: nat, n: nat)
    requires i < n
    ensures CombinationsFrom(i, n) ==
      seq(n - 1 - i, k requires 0 <= k < n - 1 - i => (i, i + 1 + k)) + CombinationsFrom(i + 1, n)
  {
  }

  lemma {:induction false} CombinationsFromLength(i: nat, n: nat)
    requires i <= n
    ensures 2 * |CombinationsFrom(i, n)| == (n - i) * (n - i - 1)
    decreases n - i
  {
    if i < n {
      CombinationsFromLength(i + 1, n);
      CombinationsFromSplit(i, n);
      var m := n - i - 1;
      assert 2 * |CombinationsFrom(i, n)| == 2 * m + m * (m - 1);
      assert 2 * m + m * (m - 1) == (m + 1) * m;
    }
  }

  lemma {:induction false} CombinationsFromMembers(i: nat, n: nat)
    requires i <= n
    ensures forall p: (nat, nat) :: p in CombinationsFrom(i, n) <==> i <= p.0 < p.1 < n
    decreases n - i
  {
    if i < n {
      CombinationsFromMembers(i + 1, n);
      CombinationsFromSplit(i, n);
      var row := seq(n - 1 - i, k requires 0 <= k < n - 1 - i => (i, i + 1 + k));
      var c := CombinationsFrom(i, n);
      forall p: (nat, nat) | i <= p.0 < p.1 < n ensures p in c {
        if p.0 == i {
          assert row[p.1 - i - 1] == p;
        }
      }
    }
  }

  lemma {:induction false} CombinationsFromOrdered(i: nat, n: nat)
    requires i <= n
    ensures forall k, l :: 0 <= k < l < |CombinationsFrom(i, n)| ==>
      LexBefore(CombinationsFrom(i, n)[k], CombinationsFrom(i, n)[l])
    decreases n - i
  {
    if i < n {
      CombinationsFromOrdered(i + 1, n);
      CombinationsFromMembers(i + 1, n);
      CombinationsFromSplit(i, n);
      var row := seq(n - 1 - i, k requires 0 <= k < n - 1 - i => (i, i + 1 + k));
      var rest := CombinationsFrom(i + 1, n);
      var c := CombinationsFrom(i, n);
      forall k, l | 0 <= k < l < |c| ensures LexBefore(c[k], c[l]) {
        if k < |row| && l >= |row| {
          assert c[l] == rest[l - |row|];
          assert c[l] in rest;
        } else if k >= |row| {
          assert c[k] == rest[k - |row|] && c[l] == rest[l - |row|];
        }
      }
    }
  }

  /**
   * `combinations` yields every pair `i < j < n` exactly once, in
   * lexicographic order, `n(n-1)/2` of them.
   */
  lemma CombinationsShape(n: nat)
    ensures 2 * |Combinations(n)| == n * (n - 1)
    ensures forall p: (nat, nat) :: p in Combinations(n) <==> p.0 < p.1 < n
    ensures forall k, l :: 0 <= k < l < |Combinations(n)| ==> LexBefore(Combinations(n)[k], Combinations(n)[l])
  {
    CombinationsFromLength(0, n);
    CombinationsFromMembers(0, n);
    CombinationsFromOrdered(0, n);
  }

  predicate InRange(combos: seq<(nat, nat)>, n: nat) {
    forall k :: 0 <= k < |combos| ==> combos[k].0 < n && combos[k].1 < n
  }

  /** The pair interactions for the index pairs `combos`, or the first error of the combining rule. */
  function PairsAlong(ps: seq<ChargedLJ>, combos: seq<(nat, nat)>, sqrt: real -> real): Result<seq<PairInteraction>>
    requires InRange(combos, |ps|)
  {
    if combos == [] then Ok([])
    else
      match PairsAlong(ps, combos[..|combos| - 1], sqrt)
      case Err(e) => Err(e)
      case Ok(prev) =>
        var (i, j) := combos[|combos| - 1];
        match CombineLorentzBerthelot(ps[i].sigma, ps[j].sigma, ps[i].eps, ps[j].eps, sqrt)
        case Err(e) => Err(e)
        case Ok(se) => Ok(prev + [PairInteraction((ps[i].name, ps[j].name), se.0, se.1)])
  }

  /** The pair interaction the rule gives for particles `i` and `j`. */
  function PairOf(ps: seq<ChargedLJ>, i: nat, j: nat, sqrt: real -> real): PairInteraction
    requires i < |ps| && j < |ps| && 0.0 <= ps[i].eps * ps[j].eps
  {
    var se := CombineLorentzBerthelot(ps[i].sigma, ps[j].sigma, ps[i].eps, ps[j].eps, sqrt).value;
    PairInteraction((ps[i].name, ps[j].name), se.0, se.1)
  }

  /** No index pair in `combos` joins two eps values of opposite signs. */
  ghost predicate CompatibleAlong(ps: seq<ChargedLJ>, combos: seq<(nat, nat)>)
    requires InRange(combos, |ps|)
  {
    forall k :: 0 <= k < |combos| ==> 0.0 <= ps[combos[k].0].eps * ps[combos[k].1].eps
  }

  /** `pairs` holds one interaction per index pair of `combos`, in order. */
  ghost predicate PairedAlong(ps: seq<ChargedLJ>, combos: seq<(nat, nat)>, pairs: seq<PairInteraction>, sqrt: real -> real)
    requires InRange(combos, |ps|)
  {
    |pairs| == |combos| &&
    forall k :: 0 <= k < |combos| ==>
      0.0 <= ps[combos[k].0].eps * ps[combos[k].1].eps &&
      pairs[k] == PairOf(ps, combos[k].0, combos[k].1, sqrt)
  }

  /** The outcome of `PairsAlong` is what `PairsAlongResult` says it is. */
  ghost predicate PairsAlongMeets(ps: seq<ChargedLJ>, combos: seq<(nat, nat)>, sqrt: real -> real)
    requires InRange(combos, |ps|)
  {
    (PairsAlong(ps, combos, sqrt).Ok? <==> CompatibleAlong(ps, combos)) &&
    (PairsAlong(ps, combos, sqrt).Ok? ==> PairedAlong(ps, combos, PairsAlong(ps, combos, sqrt).value, sqrt))
  }

  /** If the outcome is right for all index pairs but the last, it is right for all of them. */
  lemma PairsAlongStep(ps: seq<ChargedLJ>, combos: seq<(nat, nat)>, sqrt: real -> real)
    requires InRange(combos, |ps|) && combos != []
    requires PairsAlongMeets(ps, combos[..|combos| - 1], sqrt)
    ensures PairsAlongMeets(ps, combos, sqrt)
  {
    var front := combos[..|combos| - 1];
    assert forall k :: 0 <= k < |front| ==> front[k] == combos[k];
  }

  /**
   * The pairs succeed exactly when no index pair has eps values of opposite
   * signs, and then hold one interaction per index pair, in order.
   */
  lemma {:induction false} PairsAlongResult(ps: seq<ChargedLJ>, combos: seq<(nat, nat)>, sqrt: real -> real)
    requires InRange(combos, |ps|)
    ensures PairsAlong(ps, combos, sqrt).Ok? <==> CompatibleAlong(ps, combos)
    ensures PairsAlong(ps, combos, sqrt).Ok? ==> PairedAlong(ps, combos, PairsAlong(ps, combos, sqrt).value, sqrt)
  {
    if combos != [] {
      PairsAlongResult(ps, combos[..|combos| - 1], sqrt);
      PairsAlongStep(ps, combos, sqrt);
    }
  }

  class InterMolecular {
    var particles: seq<ChargedLJ>

    constructor ()
      ensures particles == []
    {
      particles := [];
    }

    /** `InterMolecular.from_dict`: one particle per dictionary entry, in iteration order. */
    static method FromDict(data: seq<(string, AtomSpec)>) returns (r: Result<InterMolecular>)
      ensures r.Ok? <==> ParticlesFromDict(data).Ok?
      ensures r.Ok? ==> fresh(r.value) && r.value.particles == ParticlesFromDict(data).value
      ensures r.Err? ==> ParticlesFromDict(data) == Err(r.error)
    {
      var self := new InterMolecular();
      var k := 0;
      while k < |data|
        invariant 0 <= k <= |data|
        invariant ParticlesFromDict(data[..k]) == Ok(self.particles)
      {
        var (name, atomspec) := data[k];
        assert data[..k + 1][..k] == data[..k];
        var particle := ParticleOf(name, atomspec);
        if particle.Err? {
          r := Err(particle.error);
          ParticlesFromDictPrefixErr(data, k + 1);
          return;
        }
        self.particles := self.particles + [particle.value];
        k := k + 1;
      }
      assert data[..k] == data;
      r := Ok(self);
    }

    /**
     * The `pairs` property: a `PairInteraction` for each
     * `itertools.combinations(self.particles, 2)`, in that order.
     */
    method Pairs(sqrt: real -> real) returns (r: Result<seq<PairInteraction>>)
      ensures InRange(Combinations(|particles|), |particles|)
      ensures r == PairsAlong(particles, Combinations(|particles|), sqrt)
    {
      var combos := Combinations(|particles|);
      CombinationsInRange(|particles|);
      var pairs: seq<PairInteraction> := [];
      var k := 0;
      while k < |combos|
        invariant 0 <= k <= |combos|
        invariant PairsAlong(particles, combos[..k], sqrt) == Ok(pairs)
      {
        var (i, j) := combos[k];
        PairsAlongNext(particles, combos, k, sqrt);
        var combined := CombineLorentzBerthelot(particles[i].sigma, particles[j].sigma, particles[i].eps, particles[j].eps, sqrt);
        if combined.Err? {
          r := Err(combined.error);
          PairsAlongPrefixErr(particles, combos, k + 1, sqrt);
          return;
        }
        var (sigma, eps) := combined.value;
        pairs := pairs + [PairInteraction((particles[i].name, particles[j].name), sigma, eps)];
        k := k + 1;
      }
      assert combos[..k] == combos;
      r := Ok(pairs);
    }
  }

  /** Every index pair `combinations` yields lies below `n`. */
  lemma CombinationsInRange(n: nat)
    ensures InRange(Combinations(n), n)
  {
    var c := Combinations(n);
    CombinationsShape(n);
    forall k | 0 <= k < |c| ensures c[k].0 < n && c[k].1 < n {
      assert c[k] in c;
    }
  }

  /** One more index pair either fails the combining rule or appends its interaction. */
  lemma PairsAlongNext(ps: seq<ChargedLJ>, combos: seq<(nat, nat)>, k: nat, sqrt: real -> real)
    requires InRange(combos, |ps|) && k < |combos|
    ensures var (i, j) := combos[k];
      PairsAlong(ps, combos[..k + 1], sqrt) ==
        match PairsAlong(ps, combos[..k], sqrt)
        case Err(e) => Err(e)
        case Ok(prev) =>
          match CombineLorentzBerthelot(ps[i].sigma, ps[j].sigma, ps[i].eps, ps[j].eps, sqrt)
          case Err(e) => Err(e)
          case Ok(se) => Ok(prev + [PairInteraction((ps[i].name, ps[j].name), se.0, se.1)])
  {
    assert combos[..k + 1][..k] == combos[..k];
  }

  /** An error in a prefix of the dictionary is the error of the whole. */
  lemma {:induction false} ParticlesFromDictPrefixErr(data: seq<(string, AtomSpec)>, n: nat)
    requires n <= |data| && ParticlesFromDict(data[..n]).Err?
    ensures ParticlesFromDict(data) == ParticlesFromDict(data[..n])
    decreases |data| - n
  {
    if n < |data| {
      assert data[..n + 1][..n] == data[..n];
      ParticlesFromDictPrefixErr(data, n + 1);
    } else {
      assert data[..n] == data;
    }
  }

  lemma {:induction false} PairsAlongPrefixErr(ps: seq<ChargedLJ>, combos: seq<(nat, nat)>, n: nat, sqrt: real -> real)
    requires InRange(combos, |ps|) && n <= |combos| && PairsAlong(ps, combos[..n], sqrt).Err?
    ensures PairsAlong(ps, combos, sqrt) == PairsAlong(ps, combos[..n], sqrt)
    decreases |combos| - n
  {
    if n < |combos| {
      assert combos[..n + 1][..n] == combos[..n];
      PairsAlongPrefixErr(ps, combos, n + 1, sqrt);
    } else {
      assert combos[..n] == combos;
    }
  }

  /**
   * With no two eps values of opposite signs, `pairs` yields `n(n-1)/2`
   * interactions, the k-th between the particles of the k-th index pair
   * `i < j`; with distinct particle names no particle is paired with itself.
   */
  lemma PairsResult(ps: seq<ChargedLJ>, sqrt: real -> real)
    requires forall i, j :: 0 <= i < j < |ps| ==> 0.0 <= ps[i].eps * ps[j].eps
    ensures InRange(Combinations(|ps|), |ps|)
    ensures var r, c := PairsAlong(ps, Combinations(|ps|), sqrt), Combinations(|ps|);
      r.Ok? && |r.value| == |c| && 2 * |r.value| == |ps| * (|ps| - 1) &&
      forall k :: 0 <= k < |c| ==> c[k].0 < c[k].1 < |ps| && r.value[k] == PairOf(ps, c[k].0, c[k].1, sqrt)
    ensures (forall i, j :: 0 <= i < j < |ps| ==> ps[i].name != ps[j].name) ==>
      forall k :: 0 <= k < |PairsAlong(ps, Combinations(|ps|), sqrt).value| ==>
        PairsAlong(ps, Combinations(|ps|), sqrt).value[k].pair.0 != PairsAlong(ps, Combinations(|ps|), sqrt).value[k].pair.1
  {
    var c := Combinations(|ps|);
    CombinationsShape(|ps|);
    forall k | 0 <= k < |c| ensures c[k].0 < c[k].1 < |ps| {
      assert c[k] in c;
    }
    PairsAlongResult(ps, c, sqrt);
  }

  /* ------------------------------------------------------ IntraMolecular */

  /** `HarmonicConstraint`: a bond between two atoms with its length and force constant. */
  datatype HarmonicConstraint = HarmonicConstraint(between: seq<int>, r: real, k: real)

  /** `HarmonicAngleConstraint`: an angle between three atoms with its value and force constant. */
  datatype HarmonicAngleConstraint = HarmonicAngleConstraint(between: seq<int>, theta: real, k: real)

  /** `MolecularConstraints`; `dihedrals` has the shape the topology writer reads from it. */
  datatype MolecularConstraints = MolecularConstraints(
    name: string,
    bonds: seq<HarmonicConstraint>,
    angles: seq<HarmonicAngleConstraint>,
    dihedrals: seq<HarmonicAngleConstraint>)

  /** One entry of a molecule's "bonds" list; a missing key is `None`. */
  datatype BondSpec = BondSpec(between: Option<seq<int>>, r: Option<real>, k: Option<real>)

  /** One entry of a molecule's "angles" list; a missing key is `None`. */
  datatype AngleSpec = AngleSpec(between: Option<seq<int>>, theta: Option<real>, k: Option<real>)

  /** One value of the "bonded" dictionary: its "bonds" and "angles" lists, when present. */
  datatype MolSpec = MolSpec(bonds: Option<seq<BondSpec>>, angles: Option<seq<AngleSpec>>)

  function BondOf(b: BondSpec): Result<HarmonicConstraint> {
    if b.between.None? then Err(KeyError("between"))
    else if b.r.None? then Err(KeyError("r"))
    else if b.k.None? then Err(KeyError("k"))
    else Ok(HarmonicConstraint(b.between.value, b.r.value, b.k.value))
  }

  function AngleOf(a: AngleSpec): Result<HarmonicAngleConstraint> {
    if a.between.None? then Err(KeyError("between"))
    else if a.theta.None? then Err(KeyError("theta"))
    else if a.k.None? then Err(KeyError("k"))
    else Ok(HarmonicAngleConstraint(a.between.value, a.theta.value, a.k.value))
  }

  /** The list comprehension over `molspec['bonds']`. */
  function BondsOf(specs: seq<BondSpec>): Result<seq<HarmonicConstraint>> {
    if specs == [] then Ok([])
    else
      match BondsOf(specs[..|specs| - 1])
      case Err(e) => Err(e)
      case Ok(prev) =>
        match BondOf(specs[|specs| - 1])
        case Err(e) => Err(e)
        case Ok(b) => Ok(prev + [b])
  }

  /** The list comprehension over `molspec['angles']`. */
  function AnglesOf(specs: seq<AngleSpec>): Result<seq<HarmonicAngleConstraint>> {
    if specs == [] then Ok([])
    else
      match AnglesOf(specs[..|specs| - 1])
      case Err(e) => Err(e)
      case Ok(prev) =>
        match AngleOf(specs[|specs| - 1])
        case Err(e) => Err(e)
        case Ok(a) => Ok(prev + [a])
  }

  lemma {:induction false} BondsOfResult(specs: seq<BondSpec>)
    ensures BondsOf(specs).Ok? <==> forall k :: 0 <= k < |specs| ==> BondOf(specs[k]).Ok?
    ensures BondsOf(specs).Ok? ==>
      |BondsOf(specs).value| == |specs| &&
      forall k :: 0 <= k < |specs| ==> BondsOf(specs).value[k] == BondOf(specs[k]).value
  {
    if specs != [] {
      var front := specs[..|specs| - 1];
      BondsOfResult(front);
      assert forall k :: 0 <= k < |front| ==> front[k] == specs[k];
    }
  }

  lemma {:induction false} AnglesOfResult(specs: seq<AngleSpec>)
    ensures AnglesOf(specs).Ok? <==> forall k :: 0 <= k < |specs| ==> AngleOf(specs[k]).Ok?
    ensures AnglesOf(specs).Ok? ==>
      |AnglesOf(specs).value| == |specs| &&
      forall k :: 0 <= k < |specs| ==> AnglesOf(specs).value[k] == AngleOf(specs[k]).value
  {
    if specs != [] {
      var front := specs[..|specs| - 1];
      AnglesOfResult(front);
      assert forall k :: 0 <= k < |front| ==> front[k] == specs[k];
    }
  }

  /** The constraints of one molecule: bonds, then angles, each empty when its key is absent. */
  function MoleculeOf(name: string, spec: MolSpec): Result<MolecularConstraints> {
    var bonds := if spec.bonds.Some? then BondsOf(spec.bonds.value) else Ok([]);
    if bonds.Err? then Err(bonds.error)
    else
      var angles := if spec.angles.Some? then AnglesOf(spec.angles.value) else Ok([]);
      if angles.Err? then Err(angles.error)
      else Ok(MolecularConstraints(name, bonds.value, angles.value, []))
  }

  /** The molecules `IntraMolecular.from_dict` builds, or its first error. */
  function MoleculesFromDict(data: seq<(string, MolSpec)>): Result<seq<MolecularConstraints>> {
    if data == [] then Ok([])
    else
      match MoleculesFromDict(data[..|data| - 1])
      case Err(e) => Err(e)
      case Ok(prev) =>
        match MoleculeOf(data[|data| - 1].0, data[|data| - 1].1)
        case Err(e) => Err(e)
        case Ok(m) => Ok(prev + [m])
  }

  /**
   * `from_dict` builds one `MolecularConstraints` per entry, in order, named
   * by its key, with the mapped bond and angle lists (empty when the key is
   * missing) and no dihedrals.
   */
  lemma {:induction false} MoleculesFromDictResult(data: seq<(string, MolSpec)>)
    ensures MoleculesFromDict(data).Ok? <==> forall k :: 0 <= k < |data| ==> MoleculeOf(data[k].0, data[k].1).Ok?
    ensures MoleculesFromDict(data).Ok? ==>
      |MoleculesFromDict(data).value| == |data| &&
      forall k :: 0 <= k < |data| ==>
        MoleculesFromDict(data).value[k].name == data[k].0 &&
        MoleculesFromDict(data).value[k].dihedrals == [] &&
        MoleculesFromDict(data).value[k].bonds == (if data[k].1.bonds.Some? then BondsOf(data[k].1.bonds.value).value else []) &&
        MoleculesFromDict(data).value[k].angles == (if data[k].1.angles.Some? then AnglesOf(data[k].1.angles.value).value else [])
  {
    if data != [] {
      var front := data[..|data| - 1];
      MoleculesFromDictResult(front);
      assert forall k :: 0 <= k < |front| ==> front[k] == data[k];
    }
  }

  class IntraMolecular {
    var molecules: seq<MolecularConstraints>

    constructor ()
      ensures molecules == []
    {
      molecules := [];
    }

    /** `IntraMolecular.from_dict`: one `MolecularConstraints` per dictionary entry. */
    static method FromDict(data: seq<(string, MolSpec)>) returns (r: Result<IntraMolecular>)
      ensures r.Ok? <==> MoleculesFromDict(data).Ok?
      ensures r.Ok? ==> fresh(r.value) && r.value.molecules == MoleculesFromDict(data).value
      ensures r.Err? ==> MoleculesFromDict(data) == Err(r.error)
    {
      var self := new IntraMolecular();
      var k := 0;
      while k < |data|
        invariant 0 <= k <= |data|
        invariant MoleculesFromDict(data[..k]) == Ok(self.molecules)
      {
        var (name, molspec) := data[k];
        assert data[..k + 1][..k] == data[..k];
        var bonds: seq<HarmonicConstraint> := [];
        if molspec.bonds.Some? {
          var built := BondsOf(molspec.bonds.value);
          if built.Err? {
            r := Err(built.error);
            MoleculesFromDictPrefixErr(data, k + 1);
            return;
          }
          bonds := built.value;
        }
        var angles: seq<HarmonicAngleConstraint> := [];
        if molspec.angles.Some? {
          var built := AnglesOf(molspec.angles.value);
          if built.Err? {
            r := Err(built.error);
            MoleculesFromDictPrefixErr(data, k + 1);
            return;
          }
          angles := built.value;
        }
        var cst := MolecularConstraints(name, bonds, angles, []);
        self.molecules := self.molecules + [cst];
        k := k + 1;
      }
      assert data[..k] == data;
      r := Ok(self);
    }
  }

  lemma {:induction false} MoleculesFromDictPrefixErr(data: seq<(string, MolSpec)>, n: nat)
    requires n <= |data| && MoleculesFromDict(data[..n]).Err?
    ensures MoleculesFromDict(data) == MoleculesFromDict(data[..n])
    decreases |data| - n
  {
    if n < |data| {
      assert data[..n + 1][..n] == data[..n];
      MoleculesFromDictPrefixErr(data, n + 1);
    } else {
      assert data[..n] == data;
    }
  }
}
