/** The URL generator: construction splits a URL into its base and its
    lower-cased existing parameters; generation adds a batch of random
    parameters under the configuration's bounds, lets the existing
    parameters win every clash, and writes `base + "?" + query`.

    Every random choice is an explicit argument: a `KeyDraw` per key attempt
    (the length `rand` would pick and the string `str_shuffle` would return),
    a shuffled value alphabet per slot, and the batch size. */
module UrlGenerator {
  import opened Text
  import opened OrderedMap
  import opened RandomConfig
  import opened Query

  /** The generator's state, fixed at construction. */
  datatype Generator = Generator(baseUrl: string, parameters: Params, config: Config)

  /** What construction guarantees of every generator. */
  predicate WellFormed(g: Generator) {
    && Valid(g.config)
    && '?' !in g.baseUrl
    && UniqueKeys(g.parameters)
    && forall e :: e in g.parameters ==> IsLowerCase(e.0)
  }

  function LowerPairs(p: Params): (ps: seq<Entry>)
    ensures |ps| == |p|
    ensures forall i :: 0 <= i < |p| ==> ps[i] == (Lower(p[i].0), p[i].1)
  {
    seq(|p|, i requires 0 <= i < |p| => (Lower(p[i].0), p[i].1))
  }

  /** `array_change_key_case($p, CASE_LOWER)`: the keys lower-cased, assigned
      in order, so a later key that folds onto an earlier one overwrites its
      value. The result has exactly the lower-cased keys of `p`, all of them
      lower-case, and keeps entries that can travel literally in a query. */
  function LowerKeys(p: Params): (r: Params)
    ensures UniqueKeys(r)
    ensures forall e :: e in r ==> IsLowerCase(e.0)
    ensures Keys(r) == set k | k in Keys(p) :: Lower(k)
    ensures (forall e :: e in p ==> Literal(e)) ==> forall e :: e in r ==> Literal(e)
  {
    var ps := LowerPairs(p);
    assert Keys(ps) == set k | k in Keys(p) :: Lower(k) by {
      forall k | k in Keys(ps)
        ensures k in set k | k in Keys(p) :: Lower(k)
      {
        var i :| 0 <= i < |ps| && ps[i].0 == k;
        assert p[i].0 in Keys(p);
      }
      forall k | k in Keys(p)
        ensures Lower(k) in Keys(ps)
      {
        var i :| 0 <= i < |p| && p[i].0 == k;
        assert ps[i].0 == Lower(k);
      }
    }
    assert forall e :: e in ps ==> IsLowerCase(e.0);
    assert (forall e :: e in p ==> Literal(e)) ==> forall e :: e in ps ==> Literal(e) by {
      if forall e :: e in p ==> Literal(e) {
        forall i | 0 <= i < |ps|
          ensures Literal(ps[i])
        {
          assert p[i] in p;
          LowerKeepsOut(p[i].0, '&');
          LowerKeepsOut(p[i].0, '=');
          LowerKeepsOut(p[i].0, '#');
        }
      }
    }
    Assemble(ps)
  }

  /** When two keys fold onto the same lower-case key, the later one's value
      is kept. */
  lemma LowerKeysLaterWins(p: Params, i: nat)
    requires i < |p|
    requires forall j :: i < j < |p| ==> Lower(p[j].0) != Lower(p[i].0)
    ensures Lower(p[i].0) in Keys(LowerKeys(p))
    ensures Lookup(LowerKeys(p), Lower(p[i].0)) == p[i].1
  {
    MergeLastWins([], LowerPairs(p), i);
  }

  /** The constructor: the base is the text before the first `?` (the whole
      URL when there is none), and the parameters are the decoded query with
      lower-cased keys. */
  function NewGenerator(url: string, config: Config): (g: Generator)
    ensures g.config == config
    ensures g.baseUrl <= url && '?' !in g.baseUrl
    ensures |g.baseUrl| < |url| ==> url[|g.baseUrl|] == '?'
    ensures Keys(g.parameters) == set k | k in Keys(ParseQuery(QueryOf(url))) :: Lower(k)
    ensures forall e :: e in g.parameters ==> Literal(e)
    ensures Valid(config) ==> WellFormed(g)
  {
    Generator(Before(url, '?'), LowerKeys(ParseQuery(QueryOf(url))), config)
  }

  /** The random choices of one attempt at a key: the length `rand($min, $max)`
      would return and the string `str_shuffle($characters)` would return. */
  datatype KeyDraw = KeyDraw(length: int, shuffled: string)

  predicate ValidKeyDraw(c: Config, d: KeyDraw) {
    && c.keyMinLength <= d.length <= c.keyMaxLength
    && multiset(d.shuffled) == multiset(c.keyCharacters)
  }

  predicate ValidKeyDraws(c: Config, draws: seq<KeyDraw>) {
    forall j :: 0 <= j < |draws| ==> ValidKeyDraw(c, draws[j])
  }

  /** A key of the configured shape: its length lies between the length
      bounds, both capped by the alphabet's size, and it uses no alphabet
      character more often than the alphabet holds it. */
  predicate KeyShape(c: Config, key: string) {
    && Min(c.keyMinLength, |c.keyCharacters|) <= |key| <= Min(c.keyMaxLength, |c.keyCharacters|)
    && multiset(key) <= multiset(c.keyCharacters)
  }

  /** The candidate of one attempt: the shuffled alphabet cut to the drawn
      length, or to the minimum when both bounds coincide. */
  function Candidate(c: Config, d: KeyDraw): (key: string)
    requires Valid(c) && ValidKeyDraw(c, d)
    ensures KeyShape(c, key)
    ensures |key| == Min(d.length, |c.keyCharacters|)
    ensures c.keyMinLength == c.keyMaxLength ==> |key| == Min(c.keyMinLength, |c.keyCharacters|)
    ensures c.keyCharacters != "" <==> key != ""
    ensures key <= d.shuffled
  {
    assert |d.shuffled| == |multiset(d.shuffled)| == |c.keyCharacters|;
    Take(d.shuffled, if c.keyMinLength == c.keyMaxLength then c.keyMinLength else d.length)
  }

  /** The candidates of a run of attempts, in order. */
  function Candidates(c: Config, draws: seq<KeyDraw>): (cands: seq<string>)
    requires Valid(c) && ValidKeyDraws(c, draws)
    ensures |cands| == |draws|
    ensures forall j :: 0 <= j < |draws| ==> cands[j] == Candidate(c, draws[j])
    ensures forall j :: 0 <= j < |draws| ==> KeyShape(c, cands[j]) && (c.keyCharacters != "" <==> cands[j] != "")
  {
    seq(|draws|, j requires 0 <= j < |draws| => Candidate(c, draws[j]))
  }

  /** A key is fresh when neither the existing parameters nor the random
      parameters built so far hold it (both lookups are exact). */
  predicate Fresh(key: string, existing: Params, current: Params) {
    key !in Keys(existing) && key !in Keys(current)
  }

  /** The first candidate in `[from, n)` that is fresh, or `n`. */
  function FirstFresh(cands: seq<string>, existing: Params, current: Params, from: nat, n: nat): (i: nat)
    requires from <= n <= |cands|
    ensures from <= i <= n
    ensures i < n ==> Fresh(cands[i], existing, current)
    ensures forall j :: from <= j < i ==> !Fresh(cands[j], existing, current)
    decreases n - from
  {
    if from == n then n
    else if Fresh(cands[from], existing, current) then from
    else FirstFresh(cands, existing, current, from + 1, n)
  }

  /** How many candidates `getRandomParameterKey` draws at most: one pass
      always runs, and further passes run while the counter, which starts at
      2 after the first pass, is below the limit. */
  function Drawn(maxAttempts: int): nat {
    if maxAttempts <= 2 then 1 else maxAttempts - 1
  }

  /** The key `getRandomParameterKey` returns, in closed form, for the
      attempt limit `maxAttempts` and the candidates its attempts would
      produce. Its counter starts at 1 and is raised after each candidate,
      the loop continues while the candidate collides and the counter is
      below the limit, and the key is discarded when the counter ends equal
      to the limit. So with a limit of 1 the first candidate is returned
      unchecked, and otherwise only the first `maxAttempts - 2` candidates
      can be returned. */
  function KeyAsWritten(maxAttempts: int, existing: Params, current: Params, cands: seq<string>): (key: string)
    requires 1 <= maxAttempts && Drawn(maxAttempts) <= |cands|
    ensures key == "" || key in cands
    ensures maxAttempts >= 2 && key != "" ==> Fresh(key, existing, current)
    ensures maxAttempts >= 2 && key != "" ==>
      exists j :: 0 <= j < maxAttempts - 2 && key == cands[j] &&
        forall j' :: 0 <= j' < j ==> !Fresh(cands[j'], existing, current)
  {
    if maxAttempts == 1 then cands[0]
    else
      var i := FirstFresh(cands, existing, current, 0, maxAttempts - 2);
      if i < maxAttempts - 2 then cands[i] else ""
  }

  /** `getRandomParameterKey`, loop for loop, given the candidates its
      attempts produce (`Candidates`): the counter starts at 1, each pass
      takes the next candidate and raises the counter, the loop repeats while
      the candidate collides and the counter is below the limit, and a
      counter equal to the limit discards the key. */
  method RandomParameterKey(maxAttempts: int, existing: Params, current: Params, cands: seq<string>) returns (key: string)
    requires 1 <= maxAttempts && Drawn(maxAttempts) <= |cands|
    ensures key == KeyAsWritten(maxAttempts, existing, current, cands)
    ensures maxAttempts == 1 ==> key == cands[0]
    ensures maxAttempts == 2 ==> key == ""
    ensures maxAttempts >= 3 && (forall j :: 0 <= j < maxAttempts - 2 ==> cands[j] != "") ==>
      (key != "" <==> exists j :: 0 <= j < maxAttempts - 2 && Fresh(cands[j], existing, current))
  {
    var attempts := 1;
    key := cands[attempts - 1];
    attempts := attempts + 1;
    while !Fresh(key, existing, current) && attempts < maxAttempts
      invariant 2 <= attempts
      invariant attempts == 2 || attempts <= maxAttempts
      invariant key == cands[attempts - 2]
      invariant forall j :: 0 <= j < attempts - 2 ==> !Fresh(cands[j], existing, current)
      decreases maxAttempts - attempts
    {
      key := cands[attempts - 1];
      attempts := attempts + 1;
    }
    if maxAttempts >= 2 {
      ghost var i := FirstFresh(cands, existing, current, 0, maxAttempts - 2);
      if attempts < maxAttempts {
        assert i == attempts - 2;
      } else {
        assert i == maxAttempts - 2;
      }
    }
    if attempts == maxAttempts {
      key := "";
    }
  }

  /** The search the loop evidently intends: up to `maxAttempts`
      candidates, the first fresh one returned, and the empty string only
      when none of them is fresh. */
  function KeyIntended(maxAttempts: int, existing: Params, current: Params, cands: seq<string>): (key: string)
    requires 1 <= maxAttempts <= |cands|
    ensures key == "" || key in cands
    ensures key != "" ==> Fresh(key, existing, current)
    ensures key != "" ==>
      exists j :: 0 <= j < maxAttempts && key == cands[j] &&
        forall j' :: 0 <= j' < j ==> !Fresh(cands[j'], existing, current)
    ensures (forall j :: 0 <= j < maxAttempts ==> cands[j] != "") ==>
      (key != "" <==> exists j :: 0 <= j < maxAttempts && Fresh(cands[j], existing, current))
  {
    var i := FirstFresh(cands, existing, current, 0, maxAttempts);
    if i < maxAttempts then cands[i] else ""
  }

  /** The candidate drawn on the last permitted pass never matters: two
      candidate runs that agree on their first `maxAttempts - 2` candidates
      (on the first one when the limit is 1) give the same key. */
  lemma KeyAsWrittenIgnoresLastDraw(maxAttempts: int, existing: Params, current: Params, a: seq<string>, b: seq<string>)
    requires 1 <= maxAttempts && Drawn(maxAttempts) <= |a| && Drawn(maxAttempts) <= |b|
    requires forall j :: 0 <= j < (if maxAttempts == 1 then 1 else maxAttempts - 2) ==> a[j] == b[j]
    ensures KeyAsWritten(maxAttempts, existing, current, a) == KeyAsWritten(maxAttempts, existing, current, b)
  {
    if maxAttempts >= 2 {
      FirstFreshAgrees(a, b, existing, current, 0, maxAttempts - 2);
    }
  }

  lemma {:induction false} FirstFreshAgrees(a: seq<string>, b: seq<string>, existing: Params, current: Params, from: nat, n: nat)
    requires from <= n <= |a| && n <= |b|
    requires forall j :: from <= j < n ==> a[j] == b[j]
    ensures FirstFresh(a, existing, current, from, n) == FirstFresh(b, existing, current, from, n)
    decreases n - from
  {
    if from < n {
      FirstFreshAgrees(a, b, existing, current, from + 1, n);
    }
  }

  /** Whenever the search as written finds a key, the intended search finds
      the same one; the two differ only where the code gives up early (or,
      with a limit of 1, returns a colliding first candidate). */
  lemma AsWrittenAgreesWhenFound(maxAttempts: int, existing: Params, current: Params, cands: seq<string>)
    requires 2 <= maxAttempts <= |cands|
    requires KeyAsWritten(maxAttempts, existing, current, cands) != ""
    ensures KeyIntended(maxAttempts, existing, current, cands) == KeyAsWritten(maxAttempts, existing, current, cands)
  {
    var i := FirstFresh(cands, existing, current, 0, maxAttempts - 2);
    var j := FirstFresh(cands, existing, current, 0, maxAttempts);
    assert i < maxAttempts - 2;
  }

  /** Limit 3: the first candidate collides and the second is fresh; the code
      draws the second, then discards it because the counter reached the
      limit, while the intended search returns it. */
  lemma AsWrittenDiscardsFreshLastCandidate()
    ensures KeyAsWritten(3, [("a", "1")], [], ["a", "b", "c"]) == ""
    ensures KeyIntended(3, [("a", "1")], [], ["a", "b", "c"]) == "b"
  {
    assert "a" in Keys([("a", "1")]) by {
      assert [("a", "1")][0].0 == "a";
    }
    assert "b" != "a";
  }

  /** Limit 2: the code never returns a key, even with no parameters at all. */
  lemma AsWrittenTwoAttemptsFindNothing()
    ensures KeyAsWritten(2, [], [], ["a", "b"]) == ""
    ensures KeyIntended(2, [], [], ["a", "b"]) == "a"
  {
  }

  /** Limit 1: the code returns the first candidate although an existing
      parameter already has that key, while the intended search gives up. */
  lemma AsWrittenOneAttemptCollides()
    ensures KeyAsWritten(1, [("a", "1")], [], ["a"]) == "a"
    ensures KeyIntended(1, [("a", "1")], [], ["a"]) == ""
  {
    assert "a" in Keys([("a", "1")]) by {
      assert [("a", "1")][0].0 == "a";
    }
  }

  /** Which key search a batch uses: the one the code implements, or the one
      its loop evidently intends. */
  datatype Search = AsWritten | Intended

  /** Whether every non-empty key the search returns is fresh. */
  predicate ChecksCollisions(s: Search, maxAttempts: int) {
    s == Intended || maxAttempts >= 2
  }

  function SearchKey(s: Search, maxAttempts: int, existing: Params, current: Params, cands: seq<string>): (key: string)
    requires 1 <= maxAttempts <= |cands|
    ensures key == "" || key in cands
    ensures ChecksCollisions(s, maxAttempts) && key != "" ==> Fresh(key, existing, current)
  {
    match s
    case AsWritten => KeyAsWritten(maxAttempts, existing, current, cands)
    case Intended => KeyIntended(maxAttempts, existing, current, cands)
  }

  /** A value of the configured shape: as long as the value length capped by
      the alphabet's size, using no alphabet character more often than the
      alphabet holds it. */
  predicate ValueShape(c: Config, value: string) {
    && |value| == Min(c.valueLength, |c.valueCharacters|)
    && multiset(value) <= multiset(c.valueCharacters)
  }

  /** `getRandomParameterValue`: the shuffled value alphabet cut to the value
      length. */
  function RandomParameterValue(c: Config, shuffled: string): (value: string)
    requires Valid(c) && multiset(shuffled) == multiset(c.valueCharacters)
    ensures ValueShape(c, value)
    ensures value <= shuffled
  {
    assert |shuffled| == |multiset(shuffled)| == |c.valueCharacters|;
    Take(shuffled, c.valueLength)
  }

  /** All random choices of one `generateUrl` call: the batch size `rand`
      would pick, and per slot the key attempts and the shuffled value
      alphabet. */
  datatype Draws = Draws(amount: int, keys: seq<seq<KeyDraw>>, values: seq<string>)

  predicate ValidDraws(c: Config, d: Draws) {
    && c.paramsMinAmount <= d.amount <= c.paramsMaxAmount
    && |d.keys| >= c.paramsMaxAmount
    && |d.values| >= c.paramsMaxAmount
    && (forall i :: 0 <= i < |d.keys| ==> |d.keys[i]| >= c.keyMaxAttempts && ValidKeyDraws(c, d.keys[i]))
    && (forall i :: 0 <= i < |d.values| ==> multiset(d.values[i]) == multiset(c.valueCharacters))
  }

  /** The batch size: the minimum when both bounds coincide, else the draw. */
  function ParamsAmount(c: Config, d: Draws): int {
    if c.paramsMinAmount == c.paramsMaxAmount then c.paramsMinAmount else d.amount
  }

  /** Per slot, the candidates its key attempts produce. */
  function SlotCandidates(c: Config, d: Draws): (cands: seq<seq<string>>)
    requires Valid(c) && ValidDraws(c, d)
    ensures |cands| == |d.keys|
    ensures forall i :: 0 <= i < |cands| ==> |cands[i]| >= c.keyMaxAttempts
    ensures forall i, j :: 0 <= i < |cands| && 0 <= j < |cands[i]| ==> KeyShape(c, cands[i][j])
  {
    seq(|d.keys|, i requires 0 <= i < |d.keys| => Candidates(c, d.keys[i]))
  }

  /** Per slot, the value it would assign. */
  function SlotValues(c: Config, d: Draws): (values: seq<string>)
    requires Valid(c) && ValidDraws(c, d)
    ensures |values| == |d.values|
    ensures forall i :: 0 <= i < |values| ==> ValueShape(c, values[i])
  {
    seq(|d.values|, i requires 0 <= i < |d.values| => RandomParameterValue(c, d.values[i]))
  }

  /** PHP's `empty()` on a string: true for "" and for "0". */
  predicate IsEmptyKey(key: string) {
    key == "" || key == "0"
  }

  /** Every candidate of every slot. */
  function Pool(cands: seq<seq<string>>): set<string> {
    set i, j | 0 <= i < |cands| && 0 <= j < |cands[i]| :: cands[i][j]
  }

  /** The keys a batch slot can add: candidates that are not empty and, when
      collisions are checked, not existing keys. */
  function SlotKeys(s: Search, maxAttempts: int, existing: Params, cands: seq<seq<string>>): set<string> {
    set k | k in Pool(cands) && !IsEmptyKey(k) && (ChecksCollisions(s, maxAttempts) ==> k !in Keys(existing))
  }

  /** The key search of every slot: slot `i` searches its candidates
      `cands[i]` against the batch built so far. */
  function SlotSearch(s: Search, maxAttempts: int, existing: Params, cands: seq<seq<string>>): (Params, nat) -> string {
    (acc: Params, i: nat) =>
      if i < |cands| && 1 <= maxAttempts <= |cands[i]| then SearchKey(s, maxAttempts, existing, acc, cands[i]) else ""
  }

  /** Every slot's search finds nothing or a key the slot can add, and that
      key is one of the slot's own candidates. */
  lemma SlotSearchKeys(s: Search, maxAttempts: int, existing: Params, cands: seq<seq<string>>)
    ensures forall acc: Params, i: nat ::
      IsEmptyKey(SlotSearch(s, maxAttempts, existing, cands)(acc, i)) ||
      SlotSearch(s, maxAttempts, existing, cands)(acc, i) in SlotKeys(s, maxAttempts, existing, cands)
    ensures forall acc: Params, i: nat ::
      i < |cands| && !IsEmptyKey(SlotSearch(s, maxAttempts, existing, cands)(acc, i)) ==>
      SlotSearch(s, maxAttempts, existing, cands)(acc, i) in cands[i]
  {
    forall acc: Params, i: nat
      ensures IsEmptyKey(SlotSearch(s, maxAttempts, existing, cands)(acc, i)) ||
              SlotSearch(s, maxAttempts, existing, cands)(acc, i) in SlotKeys(s, maxAttempts, existing, cands)
      ensures i < |cands| && !IsEmptyKey(SlotSearch(s, maxAttempts, existing, cands)(acc, i)) ==>
              SlotSearch(s, maxAttempts, existing, cands)(acc, i) in cands[i]
    {
      var key := SlotSearch(s, maxAttempts, existing, cands)(acc, i);
      if !IsEmptyKey(key) {
        var j :| 0 <= j < |cands[i]| && cands[i][j] == key;
        assert key in Pool(cands);
      }
    }
  }

  /** Slots `i` to `amount - 1` of the batch loop, starting from `acc`: each
      slot asks `search` for a key against the batch so far; the first empty
      key ends the batch; otherwise the slot's value is assigned under the
      key. */
  function Fill(search: (Params, nat) -> string, values: seq<string>, i: nat, amount: nat, acc: Params): Params
    requires i <= amount <= |values|
    decreases amount - i
  {
    if i == amount then acc
    else
      var key := search(acc, i);
      if IsEmptyKey(key) then acc
      else Fill(search, values, i + 1, amount, Put(acc, key, values[i]))
  }

  /** One slot of the batch loop. */
  lemma FillStep(search: (Params, nat) -> string, values: seq<string>, i: nat, amount: nat, acc: Params)
    requires i < amount <= |values|
    ensures Fill(search, values, i, amount, acc)
         == if IsEmptyKey(search(acc, i)) then acc else Fill(search, values, i + 1, amount, Put(acc, search(acc, i), values[i]))
  {
  }

  /** A batch started from an array with unique keys keeps them unique. */
  lemma {:induction false} FillUnique(search: (Params, nat) -> string, values: seq<string>, i: nat, amount: nat, acc: Params)
    requires i <= amount <= |values|
    requires UniqueKeys(acc)
    ensures UniqueKeys(Fill(search, values, i, amount, acc))
    decreases amount - i
  {
    if i < amount {
      var key := search(acc, i);
      if !IsEmptyKey(key) {
        PutKeepsUnique(acc, key, values[i]);
        FillUnique(search, values, i + 1, amount, Put(acc, key, values[i]));
      }
    }
  }

  /** The batch grows by at most one entry per slot. */
  lemma {:induction false} FillSize(search: (Params, nat) -> string, values: seq<string>, i: nat, amount: nat, acc: Params)
    requires i <= amount <= |values|
    ensures |Fill(search, values, i, amount, acc)| <= |acc| + (amount - i)
    decreases amount - i
  {
    if i < amount {
      var key := search(acc, i);
      if !IsEmptyKey(key) {
        FillSize(search, values, i + 1, amount, Put(acc, key, values[i]));
      }
    }
  }

  /** When every slot's search finds nothing or a key of `allowed`, every key
      the batch adds is in `allowed`. */
  lemma {:induction false} FillKeys(search: (Params, nat) -> string, values: seq<string>, i: nat, amount: nat, acc: Params,
                                    allowed: set<string>)
    requires i <= amount <= |values|
    requires forall a: Params, j: nat :: i <= j < amount ==> IsEmptyKey(search(a, j)) || search(a, j) in allowed
    ensures forall e :: e in Fill(search, values, i, amount, acc) ==> e in acc || e.0 in allowed
    decreases amount - i
  {
    if i < amount {
      var key := search(acc, i);
      if !IsEmptyKey(key) {
        FillKeys(search, values, i + 1, amount, Put(acc, key, values[i]), allowed);
      }
    }
  }

  /** Every value a batch adds is a slot value. */
  lemma {:induction false} FillValues(search: (Params, nat) -> string, values: seq<string>, i: nat, amount: nat, acc: Params)
    requires i <= amount <= |values|
    ensures forall e :: e in Fill(search, values, i, amount, acc) ==> e in acc || e.1 in values
    decreases amount - i
  {
    if i < amount {
      var key := search(acc, i);
      if !IsEmptyKey(key) {
        var next := Put(acc, key, values[i]);
        FillValues(search, values, i + 1, amount, next);
        assert values[i] in values;
      }
    }
  }

  /** What every random batch satisfies: no key is empty, keys and values
      have the configured shapes, and when collisions are checked no key is
      an existing parameter. */
  predicate BatchShape(s: Search, c: Config, existing: Params, r: Params) {
    forall e :: e in r ==>
      && !IsEmptyKey(e.0)
      && KeyShape(c, e.0)
      && ValueShape(c, e.1)
      && (ChecksCollisions(s, c.keyMaxAttempts) ==> e.0 !in Keys(existing))
  }

  /** A batch of slot keys and slot values of valid draws has the
      configured shapes. */
  lemma SlotShapes(s: Search, c: Config, existing: Params, d: Draws, r: Params)
    requires Valid(c) && ValidDraws(c, d)
    requires forall e :: e in r ==> e.0 in SlotKeys(s, c.keyMaxAttempts, existing, SlotCandidates(c, d)) && e.1 in SlotValues(c, d)
    ensures BatchShape(s, c, existing, r)
  {
    var cands := SlotCandidates(c, d);
    forall e | e in r
      ensures KeyShape(c, e.0) && ValueShape(c, e.1)
    {
      var i, j :| 0 <= i < |cands| && 0 <= j < |cands[i]| && cands[i][j] == e.0;
    }
  }

  /** `generateRandomParameters`: the batch size lies within the configured
      bounds and is the minimum when they coincide; the batch holds at most
      that many entries under distinct keys, every entry of the configured
      shape, and no existing key among them when collisions are checked. */
  function RandomParameters(s: Search, c: Config, existing: Params, d: Draws): (r: Params)
    requires Valid(c) && ValidDraws(c, d)
    ensures UniqueKeys(r)
    ensures c.paramsMinAmount <= ParamsAmount(c, d) <= c.paramsMaxAmount
    ensures c.paramsMinAmount == c.paramsMaxAmount ==> ParamsAmount(c, d) == c.paramsMinAmount
    ensures |r| <= ParamsAmount(c, d)
    ensures BatchShape(s, c, existing, r)
  {
    var cands := SlotCandidates(c, d);
    var values := SlotValues(c, d);
    var amount := ParamsAmount(c, d);
    var search := SlotSearch(s, c.keyMaxAttempts, existing, cands);
    var allowed := SlotKeys(s, c.keyMaxAttempts, existing, cands);
    var r := Fill(search, values, 0, amount, []);
    FillUnique(search, values, 0, amount, []);
    FillSize(search, values, 0, amount, []);
    SlotSearchKeys(s, c.keyMaxAttempts, existing, cands);
    FillKeys(search, values, 0, amount, [], allowed);
    FillValues(search, values, 0, amount, []);
    SlotShapes(s, c, existing, d, r);
    r
  }

  /** One slot of the batch loop over given candidates: an empty key ends
      the batch, any other key is assigned, and a key that is checked for
      collisions is new, so the batch grows by one. */
  lemma SlotStep(s: Search, maxAttempts: int, existing: Params, cands: seq<seq<string>>, values: seq<string>,
                 i: nat, amount: nat, acc: Params)
    requires 1 <= maxAttempts && i < amount <= |cands| && amount <= |values|
    requires forall k :: 0 <= k < |cands| ==> |cands[k]| >= maxAttempts
    ensures var key := SearchKey(s, maxAttempts, existing, acc, cands[i]);
      var search := SlotSearch(s, maxAttempts, existing, cands);
      && Fill(search, values, i, amount, acc)
         == (if IsEmptyKey(key) then acc else Fill(search, values, i + 1, amount, Put(acc, key, values[i])))
      && (ChecksCollisions(s, maxAttempts) && !IsEmptyKey(key) ==> |Put(acc, key, values[i])| == |acc| + 1)
  {
    var key := SearchKey(s, maxAttempts, existing, acc, cands[i]);
    var search := SlotSearch(s, maxAttempts, existing, cands);
    assert search(acc, i) == key;
    FillStep(search, values, i, amount, acc);
    PutKeys(acc, key, values[i]);
  }

  /** The `for` loop of `generateRandomParameters` over given candidates
      and values: at most `amount` slots, each searching a key against the
      batch so far, the first empty key ending the batch. When collisions are
      checked every slot appends one entry, so a batch that is short stopped
      at the slot right after its last entry, whose search against the
      finished batch failed. */
  method FillSlots(s: Search, maxAttempts: int, existing: Params, cands: seq<seq<string>>, values: seq<string>, amount: nat)
    returns (params: Params)
    requires 1 <= maxAttempts && amount <= |cands| && amount <= |values|
    requires forall k :: 0 <= k < |cands| ==> |cands[k]| >= maxAttempts
    ensures params == Fill(SlotSearch(s, maxAttempts, existing, cands), values, 0, amount, [])
    ensures ChecksCollisions(s, maxAttempts) ==>
      |params| <= amount &&
      (|params| < amount ==> IsEmptyKey(SearchKey(s, maxAttempts, existing, params, cands[|params|])))
  {
    params := [];
    var i := 0;
    ghost var search := SlotSearch(s, maxAttempts, existing, cands);
    while i < amount
      invariant 0 <= i <= amount
      invariant ChecksCollisions(s, maxAttempts) ==> |params| == i
      invariant Fill(search, values, i, amount, params) == Fill(search, values, 0, amount, [])
    {
      var key := SearchKey(s, maxAttempts, existing, params, cands[i]);
      SlotStep(s, maxAttempts, existing, cands, values, i, amount, params);
      if IsEmptyKey(key) {
        break;
      }
      params := Put(params, key, values[i]);
      i := i + 1;
    }
  }

  /** `generateRandomParameters`: the batch size, the candidates and the
      values come from the draws, and the slots are filled in order. */
  method GenerateRandomParameters(s: Search, c: Config, existing: Params, d: Draws) returns (params: Params)
    requires Valid(c) && ValidDraws(c, d)
    ensures params == RandomParameters(s, c, existing, d)
    ensures |params| <= c.paramsMaxAmount
    ensures BatchShape(s, c, existing, params)
    ensures ChecksCollisions(s, c.keyMaxAttempts) && |params| < ParamsAmount(c, d) ==>
      IsEmptyKey(SearchKey(s, c.keyMaxAttempts, existing, params, SlotCandidates(c, d)[|params|]))
  {
    var amount := ParamsAmount(c, d);
    params := FillSlots(s, c.keyMaxAttempts, existing, SlotCandidates(c, d), SlotValues(c, d), amount);
  }

  /** The array `generateUrl` serialises: `array_merge` of the random batch
      and the existing parameters. Every existing parameter keeps its value,
      a random parameter survives only under a key the existing ones lack,
      the keys are exactly both key sets, and the order is the random keys
      first, then the remaining existing keys. Like `GenerateUrl`, this covers
      the string-keyed case only: existing keys are not integer-like and the
      key alphabet has no digits, since `array_merge` renumbers integer
      keys. */
  function MergedParameters(s: Search, g: Generator, d: Draws): (m: Params)
    requires WellFormed(g) && ValidDraws(g.config, d)
    requires forall e :: e in g.parameters ==> !IntegerLike(e.0)
    requires DigitFree(g.config.keyCharacters)
    ensures UniqueKeys(m)
    ensures Keys(m) == Keys(RandomParameters(s, g.config, g.parameters, d)) + Keys(g.parameters)
    ensures forall k :: k in Keys(g.parameters) ==> k in Keys(m) && Lookup(m, k) == Lookup(g.parameters, k)
    ensures var r := RandomParameters(s, g.config, g.parameters, d);
      forall k :: k in Keys(r) && k !in Keys(g.parameters) ==> k in Keys(m) && Lookup(m, k) == Lookup(r, k)
    ensures var r := RandomParameters(s, g.config, g.parameters, d);
      KeySeq(m) == KeySeq(r) + Unseen(KeySeq(g.parameters), Keys(r))
  {
    var r := RandomParameters(s, g.config, g.parameters, d);
    var p := g.parameters;
    var m := Merge(r, p);
    assert forall k :: k in Keys(p) ==> Lookup(m, k) == Lookup(p, k) by {
      forall k | k in Keys(p)
        ensures Lookup(m, k) == Lookup(p, k)
      {
        var i := IndexOfKey(p, k);
        LookupAt(p, i);
        MergeLastWins(r, p, i);
      }
    }
    assert forall k :: k in Keys(r) && k !in Keys(p) ==> Lookup(m, k) == Lookup(r, k) by {
      forall k | k in Keys(r) && k !in Keys(p)
        ensures Lookup(m, k) == Lookup(r, k)
      {
        MergeKeepsUnmentioned(r, p, k);
      }
    }
    MergeOrder(r, p);
    m
  }

  /** No digit in an alphabet. */
  predicate DigitFree(s: string) {
    forall i :: 0 <= i < |s| ==> !IsDigit(s[i])
  }

  /** `generateUrl`. PHP turns integer-like keys into integer keys, which
      `array_merge` renumbers; the model covers the string-keyed case, so
      existing keys are not integer-like and the key alphabet has no digits.
      The output is the base, a `?` (even when the query is empty), and the
      serialised merged parameters; so the base is recovered as the text
      before the output's first `?`. */
  function GenerateUrl(s: Search, g: Generator, d: Draws): (url: string)
    requires WellFormed(g) && ValidDraws(g.config, d)
    requires forall e :: e in g.parameters ==> !IntegerLike(e.0)
    requires DigitFree(g.config.keyCharacters)
    ensures |url| > |g.baseUrl| && url[..|g.baseUrl|] == g.baseUrl && url[|g.baseUrl|] == '?'
    ensures Before(url, '?') == g.baseUrl
    ensures NewGenerator(url, g.config).baseUrl == g.baseUrl
  {
    var q := Serialize(MergedParameters(s, g, d));
    BeforeAfterJoined(g.baseUrl, '?', q);
    g.baseUrl + "?" + q
  }

  /** A random entry built from alphabets that avoid the query delimiters can
      travel literally in a query. */
  lemma RandomEntriesLiteral(s: Search, c: Config, existing: Params, d: Draws)
    requires Valid(c) && ValidDraws(c, d)
    requires '&' !in c.keyCharacters && '=' !in c.keyCharacters && '#' !in c.keyCharacters
    requires '&' !in c.valueCharacters && '#' !in c.valueCharacters
    ensures forall e :: e in RandomParameters(s, c, existing, d) ==> Literal(e)
  {
    var r := RandomParameters(s, c, existing, d);
    forall e | e in r
      ensures Literal(e)
    {
      assert multiset(e.0)['&'] == 0 && multiset(e.0)['='] == 0 && multiset(e.0)['#'] == 0;
      assert multiset(e.1)['&'] == 0 && multiset(e.1)['#'] == 0;
    }
  }

  /** Re-reading the generated URL: its query decodes to exactly the merged
      parameters, so every existing parameter comes back with its original
      value whatever the random batch held, and no key appears twice. This
      needs a base without `#` (else the query would sit in the fragment) and
      alphabets without the query delimiters (the model has no
      percent-encoding). */
  lemma GeneratedQueryDecodes(s: Search, g: Generator, d: Draws)
    requires WellFormed(g) && ValidDraws(g.config, d)
    requires forall e :: e in g.parameters ==> !IntegerLike(e.0) && Literal(e)
    requires DigitFree(g.config.keyCharacters)
    requires '#' !in g.baseUrl
    requires '&' !in g.config.keyCharacters && '=' !in g.config.keyCharacters && '#' !in g.config.keyCharacters
    requires '&' !in g.config.valueCharacters && '#' !in g.config.valueCharacters
    ensures var decoded := ParseQuery(QueryOf(GenerateUrl(s, g, d)));
      && decoded == MergedParameters(s, g, d)
      && forall k :: k in Keys(g.parameters) ==> k in Keys(decoded) && Lookup(decoded, k) == Lookup(g.parameters, k)
  {
    var m := MergedParameters(s, g, d);
    var r := RandomParameters(s, g.config, g.parameters, d);
    RandomEntriesLiteral(s, g.config, g.parameters, d);
    assert forall e :: e in m ==> Literal(e);
    var q := Serialize(m);
    assert '#' !in q by {
      ParseSerialize(m);
      LiteralSerializeAvoids(m);
    }
    QueryOfJoined(g.baseUrl, q);
    ParseSerialize(m);
  }

  /** A base holding `#` (an anchor URL such as `http://x/page#top`, whose
      fragment the constructor keeps in the base) puts the whole generated
      query inside the fragment: the output URL has an empty query. */
  lemma FragmentBaseHidesQuery(s: Search, g: Generator, d: Draws)
    requires WellFormed(g) && ValidDraws(g.config, d)
    requires forall e :: e in g.parameters ==> !IntegerLike(e.0)
    requires DigitFree(g.config.keyCharacters)
    requires '#' in g.baseUrl
    ensures QueryOf(GenerateUrl(s, g, d)) == ""
  {
    assert Before(GenerateUrl(s, g, d), '#') <= g.baseUrl;
  }

  /** The serialised form of literal entries holds no `#`. */
  lemma LiteralSerializeAvoids(p: Params)
    requires forall e :: e in p ==> Literal(e)
    ensures '#' !in Serialize(p)
  {
    var pieces := EncodePairs(p);
    forall i | 0 <= i < |pieces|
      ensures '#' !in pieces[i]
    {
      assert p[i] in p;
    }
    JoinAvoids(pieces, '&', '#');
  }

  lemma {:induction false} JoinAvoids(parts: seq<string>, sep: char, c: char)
    requires c != sep
    requires forall i :: 0 <= i < |parts| ==> c !in parts[i]
    ensures c !in Join(parts, sep)
    decreases |parts|
  {
    if |parts| > 1 {
      JoinAvoids(parts[1..], sep, c);
      assert c !in parts[0];
    }
  }

  /** A small attribute bag with fixed bounds: batch size 2..2, keys of
      length 3..3 from `xyz`, values of length 2 from `01`. */
  function SmallBag(): map<string, Raw> {
    map[
      AttrParamsMinAmount := Int(2), AttrParamsMaxAmount := Int(2),
      AttrKeyMinLength := Int(3), AttrKeyMaxLength := Int(3),
      AttrKeyCharacters := Str("xyz"),
      AttrValueLength := Int(2), AttrValueCharacters := Str("01")]
  }

  /** The bag sets every option but the attempt limit, which keeps its
      default. */
  lemma SmallBagConfig()
    ensures NewConfig(SmallBag()) == Config("xyz", 3, 3, 5, "01", 2, 2, 2)
  {
  }

  /** A URL of the form `base?key=value` (such as
      `http://example.com?name=bob`): a base without `?` or `#`, a non-empty
      lower-case key free of `&`, `=` and `#`, and a value free of `&` and
      `#`. */
  predicate SingleParameterUrl(base: string, key: string, value: string) {
    && '?' !in base && '#' !in base
    && Literal((key, value))
    && IsLowerCase(key)
  }

  /** Constructing from such a URL keeps the base and reads exactly the one
      existing parameter. */
  lemma SingleParameterConstruction(base: string, key: string, value: string, config: Config)
    requires SingleParameterUrl(base, key, value)
    ensures var g := NewGenerator(base + "?" + key + "=" + value, config);
      && g.baseUrl == base
      && g.parameters == [(key, value)]
  {
    var q := key + "=" + value;
    var p: Params := [(key, value)];
    assert base + "?" + key + "=" + value == base + "?" + q;
    assert '#' !in q;
    QueryOfJoined(base, q);
    BeforeAfterJoined(base, '?', q);
    assert Serialize(p) == q;
    ParseSerialize(p);
    LowerOfLowerCase(key);
    assert LowerPairs(p) == p;
    AssembleUnique(p);
  }

  /** With fixed bounds, the shapes are exact: at most the fixed number of
      random parameters, every key exactly the fixed length and every value
      exactly the value length, both capped by their alphabet's size. */
  lemma FixedBoundsBatch(s: Search, c: Config, existing: Params, d: Draws)
    requires Valid(c) && ValidDraws(c, d)
    requires c.paramsMinAmount == c.paramsMaxAmount && c.keyMinLength == c.keyMaxLength
    ensures var r := RandomParameters(s, c, existing, d);
      && |r| <= c.paramsMinAmount
      && forall e :: e in r ==>
           (&& |e.0| == Min(c.keyMinLength, |c.keyCharacters|)
            && |e.1| == Min(c.valueLength, |c.valueCharacters|))
  {
    var r := RandomParameters(s, c, existing, d);
    forall e | e in r
      ensures |e.0| == Min(c.keyMinLength, |c.keyCharacters|)
    {
      assert KeyShape(c, e.0);
    }
  }

  /** Under `SmallBag` a batch adds at most
      two parameters, each under a key of three characters from `xyz` with
      a value of two characters from `01`. */
  lemma SmallBagBatch(s: Search, existing: Params, d: Draws)
    requires ValidDraws(NewConfig(SmallBag()), d)
    ensures var r := RandomParameters(s, NewConfig(SmallBag()), existing, d);
      && |r| <= 2
      && forall e :: e in r ==>
           (&& |e.0| == 3 && multiset(e.0) <= multiset("xyz")
            && |e.1| == 2 && multiset(e.1) <= multiset("01"))
  {
    SmallBagConfig();
    FixedBoundsBatch(s, NewConfig(SmallBag()), existing, d);
  }
}
