/** The search of the FastLZ compressor (src/navigation/fastlz.c, lines 195-256 and 372-391) and what it achieves:
    the size of the block for inputs that repeat themselves.

    A `Trip` is one trip round the main loop, told by the position, the table, the number of bytes written and the
    number of literals in the open run.  The main results about sizes, `FinalSize` and its corollaries, speak of the
    input, the hash and the size alone. */
module FastLZSearch {
  import opened FastLZFormat

  const HASH_SIZE := 8192

  /** The most bytes written for `n` input bytes. */
  function SizeBound(n: nat): nat {
    n + n / 32 + 1
  }

  /** The size of a block of literals: one header for every 32 of them or part of it. */
  function LiteralSize(n: nat): nat {
    n + (n + 31) / 32
  }

  /** `input` repeats itself at distance `dist` from `a` up to `b`. */
  predicate Repeats(input: seq<Byte>, a: nat, b: nat, dist: nat)
    requires 1 <= dist <= a && b <= |input|
  {
    forall k :: a <= k < b ==> input[k] == input[k - dist]
  }

  /** Level 2 takes a repeated byte as a run without looking at the table. */
  predicate RunAt(level: Level, input: seq<Byte>, ip: nat)
    requires 1 <= ip && ip + 2 < |input|
  {
    level == Two && Repeats(input, ip, ip + 3, 1)
  }

  /** A distance is worth a match if it is in range and three bytes repeat, or five when it is far. */
  predicate MatchAt(level: Level, input: seq<Byte>, ip: nat, dist: nat)
    requires 1 <= dist <= ip && ip + 4 < |input|
  {
    dist < DistanceLimit(level) && Repeats(input, ip, ip + MatchLength(level, dist), dist)
  }

  function MatchLength(level: Level, dist: nat): nat {
    if level == Two && dist >= MaxDistance(Two) then 5 else 3
  }

  // ---------------------------------------------------------------- inputs and hashes

  predicate SameThree(input: seq<Byte>, a: nat, b: nat)
    requires a + 2 < |input| && b + 2 < |input|
  {
    input[a] == input[b] && input[a + 1] == input[b + 1] && input[a + 2] == input[b + 2]
  }

  /** No three bytes that begin before `q` have begun before; the first two positions are not looked up. */
  ghost predicate NewUntil(input: seq<Byte>, q: nat) {
    forall a, b :: 0 <= a < b < q && 2 <= b && b + 2 < |input| ==> !SameThree(input, a, b)
  }

  /** No three consecutive bytes of the input occur twice. */
  ghost predicate NoRepeat(input: seq<Byte>) {
    forall a, b :: 0 <= a < b && b + 2 < |input| ==> !SameThree(input, a, b)
  }

  /** The hash depends on the three bytes at a position only, as HASH_FUNCTION does. */
  ghost predicate HashOfThree(input: seq<Byte>, hash: nat -> nat) {
    forall a: nat, b: nat :: a + 2 < |input| && b + 2 < |input| && SameThree(input, a, b) ==> hash(a) == hash(b)
  }

  /** The hash agrees exactly where three bytes do. */
  ghost predicate ExactHash(input: seq<Byte>, hash: nat -> nat) {
    forall a: nat, b: nat :: a + 2 < |input| && b + 2 < |input| ==> (SameThree(input, a, b) <==> hash(a) == hash(b))
  }

  /** The slot of `q` holds `q - p` when `q` is looked up, unless a match was taken before. */
  ghost predicate Undisturbed(hash: nat -> nat, q: nat, p: nat) {
    && (p == q || (p + 2 <= q && hash(q - p) == hash(q)))
    && forall i: nat :: 2 <= i < q < i + p ==> hash(i) != hash(q)
  }

  /** Three bytes occur again for the first time at `q`, at distance `p`, and from there on the input repeats itself
      at that distance to its end. */
  ghost predicate RepeatsFrom(level: Level, input: seq<Byte>, hash: nat -> nat, q: nat, p: nat) {
    && 2 <= q && q + 12 < |input| && 1 <= p <= q && p < (if level == One then 8192 else 73725)
    && NewUntil(input, q) && Undisturbed(hash, q, p) && Repeats(input, q, |input|, p)
  }

  /** How many of the first `n` bytes differ from the byte before them. */
  function Changes(input: seq<Byte>, n: nat): nat {
    if n < 2 then 0
    else Changes(input, n - 1) + if n <= |input| && input[n - 1] != input[n - 2] then 1 else 0
  }

  lemma {:induction false} ChangesMonotonic(input: seq<Byte>, m: nat, n: nat)
    requires m <= n
    ensures Changes(input, m) <= Changes(input, n)
    ensures forall i :: 1 <= i && m <= i < n && i < |input| && input[i] != input[i - 1] ==>
              Changes(input, m) < Changes(input, n)
  {
    if m < n {
      ChangesMonotonic(input, m, n - 1);
    }
  }

  lemma {:induction false} ChangesEnd(input: seq<Byte>, n: nat)
    requires n >= |input|
    ensures Changes(input, n) == Changes(input, |input|)
  {
    if n > |input| {
      ChangesEnd(input, n - 1);
    }
  }

  // ---------------------------------------------------------------- one trip round the main loop

  /** The most bytes a match of `total` bytes takes; a far one takes two more. */
  function MatchCost(level: Level, total: nat, dist: nat): nat {
    (if total < 9 then 2 else if level == One then 3 * (total / 262) + 3 else (total - 9) / 255 + 3)
    + (if level == Two && dist > MaxDistance(Two) then 2 else 0)
  }

  /** What a match that reaches the end adds to the literals before it, `n` bytes from there. */
  function TailSize(level: Level, n: nat): nat {
    if level == One then 3 * (n / 262) + 7 else n / 255 + 9
  }

  /** Position, table, bytes written and literals in the open run. */
  datatype Config = Config(ip: nat, table: seq<nat>, size: nat, copy: nat)

  ghost predicate Proper(hash: nat -> nat, c: Config) {
    && (forall p :: hash(p) < HASH_SIZE)
    && |c.table| == HASH_SIZE && c.copy < MAX_COPY && 2 <= c.ip && forall i :: 0 <= i < HASH_SIZE ==> c.table[i] < c.ip
  }

  /** The match found, taken as far as it goes, or else one literal. */
  ghost predicate Trip(level: Level, input: seq<Byte>, hash: nat -> nat, c: Config, c': Config)
    requires Proper(hash, c) && c.ip + 12 < |input|
  {
    var run := RunAt(level, input, c.ip);
    var dist := if run then 1 else c.ip - c.table[hash(c.ip)];
    var table := if run then c.table else c.table[hash(c.ip) := c.ip];
    if run || MatchAt(level, input, c.ip, dist) then Taken(level, input, hash, c.(table := table), c', dist)
    else c' == Config(c.ip + 1, table, c.size + 1 + (c.copy + 1) / MAX_COPY, (c.copy + 1) % MAX_COPY)
  }

  /** A match at distance `dist` ends where the repetition does, or near the end of the input, and the last two
      positions before its end are entered into the table. */
  ghost predicate Taken(level: Level, input: seq<Byte>, hash: nat -> nat, c: Config, c': Config, dist: nat)
    requires 1 <= dist <= c.ip && |c.table| == HASH_SIZE && forall p :: hash(p) < HASH_SIZE
  {
    && c.ip + 3 <= c'.ip < |input| && (c'.ip < |input| - 3 ==> input[c'.ip] != input[c'.ip - dist])
    && c'.table == c.table[hash(c'.ip - 2) := c'.ip - 2][hash(c'.ip - 1) := c'.ip - 1]
    && c'.size + (if c.copy == 0 then 1 else 0) <= c.size + MatchCost(level, c'.ip - c.ip, dist) + 1
    && c'.copy == 0
  }

  lemma TakenAs(level: Level, input: seq<Byte>, hash: nat -> nat, c: Config, c': Config, dist: nat)
    requires 1 <= dist <= c.ip && |c.table| == HASH_SIZE && forall p :: hash(p) < HASH_SIZE
    requires c.ip + 3 <= c'.ip < |input| && (c'.ip < |input| - 3 ==> input[c'.ip] != input[c'.ip - dist])
    requires c'.table == c.table[hash(c'.ip - 2) := c'.ip - 2][hash(c'.ip - 1) := c'.ip - 1]
    requires c'.size + (if c.copy == 0 then 1 else 0) <= c.size + MatchCost(level, c'.ip - c.ip, dist) + 1
    requires c'.copy == 0
    ensures Taken(level, input, hash, c, c', dist)
  {
  }

  // ---------------------------------------------------------------- the first repetition

  /** Only literals so far. */
  ghost predicate Plain(c: Config) {
    c.size == SizeBound(c.ip) && c.copy == c.ip % MAX_COPY
  }

  lemma RunRepeatsThree(level: Level, input: seq<Byte>, ip: nat)
    requires 1 <= ip && ip + 2 < |input| && RunAt(level, input, ip)
    ensures SameThree(input, ip - 1, ip)
  {
    assert forall k :: ip <= k < ip + 3 ==> input[k] == input[k - 1];
  }

  lemma MatchRepeatsThree(level: Level, input: seq<Byte>, ip: nat, dist: nat)
    requires 1 <= dist <= ip && ip + 4 < |input| && MatchAt(level, input, ip, dist)
    ensures SameThree(input, ip - dist, ip)
  {
    assert forall k :: ip <= k < ip + 3 ==> input[k] == input[k - dist];
  }

  /** Before the first repetition every trip is a literal. */
  lemma NewIsLiteral(level: Level, input: seq<Byte>, hash: nat -> nat, c: Config, c': Config, q: nat)
    requires Proper(hash, c) && c.ip + 12 < |input| && Trip(level, input, hash, c, c')
    requires NewUntil(input, q) && c.ip < q && Plain(c)
    ensures c' == Config(c.ip + 1, c.table[hash(c.ip) := c.ip], c'.size, c'.copy) && Plain(c')
  {
    if RunAt(level, input, c.ip) {
      RunRepeatsThree(level, input, c.ip);
    } else if MatchAt(level, input, c.ip, c.ip - c.table[hash(c.ip)]) {
      MatchRepeatsThree(level, input, c.ip, c.ip - c.table[hash(c.ip)]);
    }
  }

  /** A run at the first repetition runs to the end as well. */
  lemma {:induction false} RunRepeats(level: Level, input: seq<Byte>, hash: nat -> nat, q: nat, p: nat, e: nat)
    requires RepeatsFrom(level, input, hash, q, p) && RunAt(level, input, q) && q <= e <= |input|
    ensures Repeats(input, q, e, 1)
    decreases e
  {
    RunRepeatsThree(level, input, q);
    assert input[q] == input[q - p] && input[q + 1] == input[q + 1 - p] && input[q + 2] == input[q + 2 - p];
    assert p > 1 && q > 2 ==> !SameThree(input, q - p, q - 1);
    if e > q + 3 {
      RunRepeats(level, input, hash, q, p, e - 1);
      assert input[e - 1] == input[e - 1 - p] && input[e - 2] == input[e - 3];
    }
  }

  /** What holds at the top of the loop when the first repetition is at `q`: it is in the table when its turn comes,
      and the match taken then goes to the end. */
  ghost predicate Repeating(level: Level, input: seq<Byte>, hash: nat -> nat, c: Config, q: nat, p: nat)
    requires Proper(hash, c)
  {
    && q <= |input|
    && if c.ip <= q then Plain(c) && (q < c.ip + p ==> c.table[hash(q)] == q - p)
    else c.ip >= |input| - 3 && c.copy == 0 && c.size + 3 <= LiteralSize(q) + TailSize(level, |input| - q)
  }

  lemma RepeatingNext(level: Level, input: seq<Byte>, hash: nat -> nat, c: Config, c': Config, q: nat, p: nat)
    requires Proper(hash, c) && Proper(hash, c') && c.ip + 12 < |input| && Trip(level, input, hash, c, c')
    requires RepeatsFrom(level, input, hash, q, p) && Repeating(level, input, hash, c, q, p)
    ensures Repeating(level, input, hash, c', q, p)
  {
    if c.ip < q {
      NewIsLiteral(level, input, hash, c, c', q);
    } else {
      RepetitionTaken(level, input, hash, c, c', q, p);
    }
  }

  lemma RepetitionTaken(level: Level, input: seq<Byte>, hash: nat -> nat, c: Config, c': Config, q: nat, p: nat)
    requires Proper(hash, c) && Proper(hash, c') && c.ip == q && q + 12 < |input| && Trip(level, input, hash, c, c')
    requires RepeatsFrom(level, input, hash, q, p) && Repeating(level, input, hash, c, q, p)
    ensures Repeating(level, input, hash, c', q, p)
  {
    if RunAt(level, input, q) {
      RunRepeats(level, input, hash, q, p, |input|);
      hide RunAt, MatchAt, Repeats, NewUntil, Undisturbed, MatchCost;
      TakenToEnd(level, input, hash, c, c', 1);
    } else {
      assert MatchAt(level, input, q, p);
      hide RunAt, MatchAt, Repeats, NewUntil, Undisturbed, MatchCost;
      TakenToEnd(level, input, hash, c.(table := c.table[hash(q) := q]), c', p);
    }
  }

  lemma TakenToEnd(level: Level, input: seq<Byte>, hash: nat -> nat, c: Config, c': Config, dist: nat)
    requires 1 <= dist <= c.ip && |c.table| == HASH_SIZE && forall p :: hash(p) < HASH_SIZE
    requires c.ip + 12 < |input| && Taken(level, input, hash, c, c', dist) && Repeats(input, c.ip, |input|, dist)
    requires Plain(c)
    ensures c'.ip > c.ip && c'.ip >= |input| - 3 && c'.copy == 0
    ensures c'.size + 3 <= LiteralSize(c.ip) + TailSize(level, |input| - c.ip)
  {
    assert MatchCost(level, c'.ip - c.ip, dist) + 4 <= TailSize(level, |input| - c.ip);
  }

  // ---------------------------------------------------------------- runs of equal bytes

  /** Changes among the bytes up to the two behind the present position. */
  function Weight(input: seq<Byte>, ip: nat): nat {
    Changes(input, ip) + Changes(input, ip + 1) + Changes(input, ip + 2)
  }

  /** At most six bytes for every unit of weight, and three for every 255 bytes passed. */
  ghost predicate Cheap(input: seq<Byte>, hash: nat -> nat, c: Config)
    requires Proper(hash, c)
  {
    && (c.ip == 2 ==> c.size == 3) && (c.ip >= 3 ==> c.table[hash(c.ip - 1)] == c.ip - 1)
    && (c.ip > 2 && c.ip + 3 >= |input| ==> c.copy == 0)
    && Within(c.size, c.ip, Weight(input, c.ip), if c.ip + 3 < |input| then 9 else 15)
  }

  predicate Within(size: nat, ip: nat, weight: nat, slack: nat) {
    255 * size <= 255 * (slack + 6 * weight) + 3 * ip
  }

  lemma WithinNext(size: nat, ip: nat, weight: nat, slack: nat, size': nat, ip': nat, weight': nat, slack': nat)
    requires Within(size, ip, weight, slack) && 255 * size' <= 255 * (size + 6) + 3 * (ip' - ip)
    requires slack + 6 * weight + 6 <= slack' + 6 * weight'
    ensures Within(size', ip', weight', slack')
  {
  }

  lemma WeightMonotonic(input: seq<Byte>, ip: nat, ip': nat)
    requires ip <= ip'
    ensures Weight(input, ip) <= Weight(input, ip')
  {
    ChangesMonotonic(input, ip, ip');
    ChangesMonotonic(input, ip + 1, ip' + 1);
    ChangesMonotonic(input, ip + 2, ip' + 2);
  }

  /** A change passed weighs in. */
  lemma WeightGrows(input: seq<Byte>, ip: nat, ip': nat, i: nat)
    requires 1 <= ip < ip' && ip <= i <= ip' + 1 && i < |input| && input[i] != input[i - 1]
    ensures Weight(input, ip) < Weight(input, ip')
  {
    hide Changes;
    ChangesMonotonic(input, ip, ip');
    ChangesMonotonic(input, ip + 1, ip' + 1);
    ChangesMonotonic(input, ip + 2, ip' + 2);
  }

  /** A trip that does not take a run of equal bytes passes a change, for such a run is found through the position
      entered last. */
  lemma NoRunWeighs(level: Level, input: seq<Byte>, hash: nat -> nat, c: Config, ip': nat)
    requires Proper(hash, c) && 3 <= c.ip && c.ip + 12 < |input| && c.table[hash(c.ip - 1)] == c.ip - 1
    requires HashOfThree(input, hash) && c.ip < ip'
    requires !RunAt(level, input, c.ip)
    requires c.table[hash(c.ip)] == c.ip - 1 ==> !MatchAt(level, input, c.ip, 1)
    ensures Weight(input, c.ip) < Weight(input, ip')
  {
    var n := c.ip;
    assert SameThree(input, n - 1, n) ==> Repeats(input, n, n + 3, 1);
    assert !SameThree(input, n - 1, n);
    hide Weight;
    var i := if input[n] != input[n - 1] then n else if input[n + 1] != input[n] then n + 1 else n + 2;
    WeightGrows(input, n, ip', i);
  }

  /** A trip's match lies behind a change, or ends at one or near the end of the input. */
  lemma TakenWeighs(level: Level, input: seq<Byte>, hash: nat -> nat, c: Config, c': Config)
    requires Proper(hash, c) && 3 <= c.ip && c.ip + 12 < |input| && c.table[hash(c.ip - 1)] == c.ip - 1
    requires HashOfThree(input, hash) && Trip(level, input, hash, c, c')
    ensures c.ip < c'.ip && Weight(input, c.ip) <= Weight(input, c'.ip)
    ensures Weight(input, c.ip) < Weight(input, c'.ip) || c'.ip >= |input| - 3
  {
    hide Weight, Repeats;
    var run, dist := RunAt(level, input, c.ip), c.ip - c.table[hash(c.ip)];
    WeightMonotonic(input, c.ip, c'.ip);
    if run || (dist == 1 && MatchAt(level, input, c.ip, 1)) {
      if c'.ip < |input| - 3 {
        WeightGrows(input, c.ip, c'.ip, c'.ip);
      }
    } else {
      NoRunWeighs(level, input, hash, c, c'.ip);
    }
  }

  /** What one trip writes. */
  lemma TripCost(level: Level, input: seq<Byte>, hash: nat -> nat, c: Config, c': Config)
    requires Proper(hash, c) && c.ip + 12 < |input| && Trip(level, input, hash, c, c')
    ensures 255 * c'.size <= 255 * (c.size + 6) + 3 * (c'.ip - c.ip) && c.ip < c'.ip
    ensures c'.ip + 3 >= |input| ==> c'.copy == 0
    ensures c'.table[hash(c'.ip - 1)] == c'.ip - 1
  {
    hide RunAt, MatchAt;
    assert c.ip < c'.ip;
    MatchCostLinear(level, c'.ip - c.ip);
    hide MatchCost;
  }

  lemma MatchCostLinear(level: Level, total: nat)
    ensures forall dist: nat :: 255 * MatchCost(level, total, dist) <= 255 * 5 + 3 * total
    ensures forall dist: nat :: total >= 3 && dist <= MaxDistance(Two) ==>
              3 * MatchCost(level, total, dist) <= 2 * total
  {
  }

  lemma CheapNext(level: Level, input: seq<Byte>, hash: nat -> nat, c: Config, c': Config)
    requires Proper(hash, c) && Proper(hash, c') && c.ip + 12 < |input| && Trip(level, input, hash, c, c')
    requires HashOfThree(input, hash) && Cheap(input, hash, c)
    ensures Cheap(input, hash, c')
  {
    hide Trip, Weight, HashOfThree;
    TripCost(level, input, hash, c, c');
    if c.ip >= 3 {
      TakenWeighs(level, input, hash, c, c');
    }
    assert Within(c.size, c.ip, Weight(input, c.ip), if c.ip == 2 then 3 else 9);
    WeightMonotonic(input, c.ip, c'.ip);
    hide Within;
    var slack := if c.ip == 2 then 3 else 9;
    WithinNext(c.size, c.ip, Weight(input, c.ip), slack, c'.size, c'.ip, Weight(input, c'.ip),
               if c'.ip + 3 < |input| then 9 else 15);
  }

  // ---------------------------------------------------------------- every three bytes are found again

  type Three = (Byte, Byte, Byte)

  function ThreeAt(input: seq<Byte>, i: nat): Three
    requires i + 2 < |input|
  {
    (input[i], input[i + 1], input[i + 2])
  }

  /** The different triples of bytes in the input. */
  ghost function Threes(input: seq<Byte>): set<Three> {
    set i {:trigger ThreeAt(input, i)} | 0 <= i && i + 2 < |input| :: ThreeAt(input, i)
  }

  /** Those that the table leads to. */
  ghost function Known(input: seq<Byte>, table: seq<nat>): set<Three> {
    set h | 0 <= h < |table| && 2 <= table[h] && table[h] + 2 < |input| :: ThreeAt(input, table[h])
  }

  /** A position entered is found in the slot of its hash. */
  ghost predicate Filed(input: seq<Byte>, table: seq<nat>, hash: nat -> nat) {
    forall h :: 0 <= h < |table| && table[h] >= 2 ==> table[h] + 2 < |input| && hash(table[h]) == h
  }

  /** Entering a position: its triple becomes known and none is forgotten. */
  lemma EnterKnown(input: seq<Byte>, table: seq<nat>, hash: nat -> nat, i: nat)
    requires Filed(input, table, hash) && ExactHash(input, hash) && 2 <= i && i + 2 < |input| && hash(i) < |table|
    ensures Filed(input, table[hash(i) := i], hash)
    ensures Known(input, table[hash(i) := i]) == Known(input, table) + {ThreeAt(input, i)}
    ensures ThreeAt(input, i) in Known(input, table) ==> table[hash(i)] >= 2
  {
    var table' := table[hash(i) := i];
    forall h | 0 <= h < |table| && 2 <= table[h] && table[h] + 2 < |input|
      ensures ThreeAt(input, table[h]) in Known(input, table')
    {
      assert h == hash(i) ==> SameThree(input, table[h], i);
      assert ThreeAt(input, table'[h]) in Known(input, table');
    }
    assert ThreeAt(input, table'[hash(i)]) in Known(input, table');
    forall h | 0 <= h < |table| && 2 <= table[h] && table[h] + 2 < |input| &&
               ThreeAt(input, table[h]) == ThreeAt(input, i)
      ensures h == hash(i)
    {
      assert SameThree(input, table[h], i);
    }
  }

  lemma KnownWithin(input: seq<Byte>, table: seq<nat>)
    ensures Known(input, table) <= Threes(input)
    ensures |Known(input, table)| <= |Threes(input)|
  {
    Subset(Known(input, table), Threes(input));
  }

  lemma {:induction false} Subset<T>(a: set<T>, b: set<T>)
    requires a <= b
    ensures |a| <= |b|
    decreases |a|
  {
    if a != {} {
      var x :| x in a;
      Subset(a - {x}, b - {x});
    }
  }

  /** A literal is written only for three bytes not yet known, while every distance is in range. */
  lemma LiteralIsNew(level: Level, input: seq<Byte>, hash: nat -> nat, c: Config)
    requires Proper(hash, c) && c.ip + 12 < |input| <= 8191
    requires ExactHash(input, hash) && Filed(input, c.table, hash)
    requires !MatchAt(level, input, c.ip, c.ip - c.table[hash(c.ip)])
    ensures ThreeAt(input, c.ip) !in Known(input, c.table)
  {
    var ref := c.table[hash(c.ip)];
    EnterKnown(input, c.table, hash, c.ip);
    if ThreeAt(input, c.ip) in Known(input, c.table) {
      assert SameThree(input, ref, c.ip);
      assert Repeats(input, c.ip, c.ip + 3, c.ip - ref);
      assert false;
    }
  }

  /** How many triples the table has led to, and as a last bound how many there are. */
  ghost function Found(input: seq<Byte>, c: Config): nat {
    if c.ip + 12 < |input| then |Known(input, c.table)| else |Threes(input)|
  }

  /** At most two bytes for every different triple, and two for every three bytes passed. */
  ghost predicate Finding(input: seq<Byte>, hash: nat -> nat, c: Config) {
    && (c.ip + 12 < |input| ==> Filed(input, c.table, hash))
    && 3 * c.size <= 6 * Found(input, c) + 2 * c.ip + 5 + if c.copy == 0 then 3 else 0
  }

  lemma FindingNext(level: Level, input: seq<Byte>, hash: nat -> nat, c: Config, c': Config)
    requires Proper(hash, c) && Proper(hash, c') && c.ip + 12 < |input| <= 8191 && Trip(level, input, hash, c, c')
    requires ExactHash(input, hash) && Finding(input, hash, c)
    ensures Finding(input, hash, c')
  {
    hide Known, Threes, ExactHash, Filed, RunAt, MatchAt;
    var ip, run := c.ip, RunAt(level, input, c.ip);
    var dist := if run then 1 else ip - c.table[hash(ip)];
    EnterKnown(input, c.table, hash, ip);
    KnownWithin(input, c'.table);
    if run || MatchAt(level, input, ip, dist) {
      var table := if run then c.table else c.table[hash(ip) := ip];
      Subset(Known(input, c.table), Known(input, table));
      TakenFinds(level, input, hash, c, c.(table := table), c', dist);
    } else {
      LiteralIsNew(level, input, hash, c);
    }
  }

  lemma TakenFinds(level: Level, input: seq<Byte>, hash: nat -> nat, c: Config, c1: Config, c': Config, dist: nat)
    requires Proper(hash, c) && Proper(hash, c') && c.ip + 12 < |input| <= 8191 && ExactHash(input, hash)
    requires c1 == c.(table := c1.table) && |c1.table| == HASH_SIZE && 1 <= dist <= c.ip
    requires Taken(level, input, hash, c1, c', dist)
    requires Filed(input, c1.table, hash) && |Known(input, c.table)| <= |Known(input, c1.table)|
    requires Finding(input, hash, c)
    ensures Finding(input, hash, c')
  {
    hide Known, Threes, ExactHash, Filed;
    MatchCostLinear(level, c'.ip - c.ip);
    KnownWithin(input, c1.table);
    if c'.ip + 12 < |input| {
      BoundaryKnown(input, c1.table, hash, c'.ip);
    }
    hide MatchCost;
  }

  lemma BoundaryKnown(input: seq<Byte>, table: seq<nat>, hash: nat -> nat, ip: nat)
    requires Filed(input, table, hash) && ExactHash(input, hash) && 4 <= ip && ip + 12 < |input|
    requires forall p :: hash(p) < |table|
    ensures var table' := table[hash(ip - 2) := ip - 2][hash(ip - 1) := ip - 1];
            Filed(input, table', hash) && |Known(input, table)| <= |Known(input, table')|
  {
    EnterKnown(input, table, hash, ip - 2);
    var table1 := table[hash(ip - 2) := ip - 2];
    EnterKnown(input, table1, hash, ip - 1);
    Subset(Known(input, table), Known(input, table1[hash(ip - 1) := ip - 1]));
  }

  // ---------------------------------------------------------------- the size of the block

  /** What holds at the top of the main loop. */
  ghost predicate Behaves(level: Level, input: seq<Byte>, hash: nat -> nat, c: Config)
    requires Proper(hash, c)
  {
    && (NoRepeat(input) ==> Plain(c))
    && (forall q: nat, p: nat :: RepeatsFrom(level, input, hash, q, p) ==> Repeating(level, input, hash, c, q, p))
    && (HashOfThree(input, hash) ==> Cheap(input, hash, c))
    && (|input| <= 8191 && ExactHash(input, hash) ==> Finding(input, hash, c))
  }

  lemma BehavesStart(level: Level, input: seq<Byte>, hash: nat -> nat, c: Config)
    requires |input| >= 4 && Proper(hash, c) && c == Config(2, c.table, 3, 2)
    requires forall i :: 0 <= i < HASH_SIZE ==> c.table[i] == 0
    ensures Behaves(level, input, hash, c)
  {
    if |input| < 15 {
      KnownWithin(input, c.table);
    }
  }

  lemma BehavesNext(level: Level, input: seq<Byte>, hash: nat -> nat, c: Config, c': Config)
    requires Proper(hash, c) && Proper(hash, c') && c.ip + 12 < |input| && Trip(level, input, hash, c, c')
    requires Behaves(level, input, hash, c)
    ensures Behaves(level, input, hash, c')
  {
    hide Trip, RepeatsFrom, Repeating, HashOfThree, Cheap, ExactHash, Finding, NoRepeat, Plain;
    if NoRepeat(input) {
      NoRepeatIsNew(input);
      NewIsLiteral(level, input, hash, c, c', |input|);
    }
    forall q: nat, p: nat | RepeatsFrom(level, input, hash, q, p)
      ensures Repeating(level, input, hash, c', q, p)
    {
      RepeatingNext(level, input, hash, c, c', q, p);
    }
    if HashOfThree(input, hash) {
      CheapNext(level, input, hash, c, c');
    }
    if |input| <= 8191 && ExactHash(input, hash) {
      FindingNext(level, input, hash, c, c');
    }
  }

  lemma NoRepeatIsNew(input: seq<Byte>)
    requires NoRepeat(input)
    ensures NewUntil(input, |input|)
  {
  }

  /** What compression achieves.  A block without repetitions consists of literals.  The first repetition, if it
      goes on to the end, is one match.  A run of equal bytes costs eighteen bytes at most, and three for every 255,
      wherever it is.  In blocks that no distance is too great for, only the different triples are written as
      literals. */
  ghost predicate Compressed(level: Level, input: seq<Byte>, hash: nat -> nat, size: nat) {
    && (NoRepeat(input) ==> size == LiteralSize(|input|))
    && (forall q: nat, p: nat :: RepeatsFrom(level, input, hash, q, p) ==>
          size <= LiteralSize(q) + if level == One then 3 * ((|input| - q) / 262) + 7 else (|input| - q) / 255 + 9)
    && (HashOfThree(input, hash) ==> size <= 18 * Changes(input, |input|) + |input| / 85 + 22)
    && (|input| <= 8191 && ExactHash(input, hash) ==> size <= 2 * |Threes(input)| + 2 * |input| / 3 + 15)
  }

  /** Blocks of fewer than four bytes. */
  lemma ShortCompressed(level: Level, input: seq<Byte>, hash: nat -> nat)
    requires 1 <= |input| < 4
    ensures Compressed(level, input, hash, |input| + 1)
  {
  }

  /** A block of one byte repeated is a single match, whatever the hash. */
  lemma OneByteCompressed(level: Level, input: seq<Byte>, hash: nat -> nat, size: nat)
    ensures Compressed(level, input, hash, size) && OneByte(input) ==>
              size <= if level == One then 3 * (|input| / 262) + 10 else |input| / 255 + 12
  {
    hide RepeatsFrom, NoRepeat, HashOfThree, ExactHash, Changes, Threes;
    if OneByte(input) {
      OneByteRepeats(level, input, hash);
    }
  }

  lemma OneByteRepeats(level: Level, input: seq<Byte>, hash: nat -> nat)
    requires OneByte(input)
    ensures RepeatsFrom(level, input, hash, 2, 2)
  {
  }

  predicate OneByte(input: seq<Byte>) {
    |input| >= 15 && forall i :: 0 <= i < |input| ==> input[i] == input[0]
  }

  /** With an exact hash the first repetition is found where it begins. */
  lemma ExactHashFinds(level: Level, input: seq<Byte>, hash: nat -> nat, q: nat, p: nat)
    requires ExactHash(input, hash)
    requires 2 <= q && q + 12 < |input| && 1 <= p <= q && p < (if level == One then 8192 else 73725)
    requires NewUntil(input, q) && Repeats(input, q, |input|, p) && (p == q || p + 2 <= q)
    ensures RepeatsFrom(level, input, hash, q, p)
  {
    assert input[q] == input[q - p] && input[q + 1] == input[q + 1 - p] && input[q + 2] == input[q + 2 - p];
    assert SameThree(input, q - p, q);
    forall i: nat | 2 <= i < q < i + p
      ensures hash(i) != hash(q)
    {
      assert !SameThree(input, q - p, i);
      assert !SameThree(input, i, q);
    }
  }

  /** An input of period `p` whose triples differ within the first period costs that period and one match. */
  lemma PeriodCompressed(level: Level, input: seq<Byte>, hash: nat -> nat, p: nat, size: nat)
    requires 2 <= p < (if level == One then 8192 else 73725) && p + 12 < |input|
    requires Repeats(input, p, |input|, p) && NewUntil(input, p) && ExactHash(input, hash)
    requires Compressed(level, input, hash, size)
    ensures size <= LiteralSize(p) + if level == One then 3 * ((|input| - p) / 262) + 7 else (|input| - p) / 255 + 9
  {
    ExactHashFinds(level, input, hash, p, p);
    hide RepeatsFrom;
  }

  /** The different triples that begin before `k`. */
  ghost function ThreesBefore(input: seq<Byte>, k: nat): set<Three>
    requires k + 2 <= |input|
  {
    set i {:trigger ThreeAt(input, i)} | 0 <= i < k :: ThreeAt(input, i)
  }

  lemma {:induction false} ThreesBeforeSize(input: seq<Byte>, k: nat)
    requires k + 2 <= |input|
    ensures |ThreesBefore(input, k)| <= k
  {
    if k == 0 {
      assert ThreesBefore(input, 0) == {};
    } else {
      ThreesBeforeSize(input, k - 1);
      assert ThreesBefore(input, k) == ThreesBefore(input, k - 1) + {ThreeAt(input, k - 1)};
    }
  }

  /** An input of period `p` has at most `p` different triples. */
  lemma {:induction false} PeriodicThree(input: seq<Byte>, p: nat, i: nat)
    requires 1 <= p && p + 2 <= |input| && Repeats(input, p, |input|, p) && i + 2 < |input|
    ensures ThreeAt(input, i) in ThreesBefore(input, p)
    decreases i
  {
    if i >= p {
      PeriodicThree(input, p, i - p);
      assert input[i] == input[i - p] && input[i + 1] == input[i + 1 - p] && input[i + 2] == input[i + 2 - p];
      assert ThreeAt(input, i) == ThreeAt(input, i - p);
    }
  }

  /** Any input of period `p` that no distance is too great for, whatever repeats within the period: that period
      may be written as literals, and every three bytes take two at most. */
  lemma AnyPeriodCompressed(level: Level, input: seq<Byte>, hash: nat -> nat, p: nat, size: nat)
    requires 1 <= p && p + 2 <= |input| <= 8191 && Repeats(input, p, |input|, p) && ExactHash(input, hash)
    requires Compressed(level, input, hash, size)
    ensures size <= 2 * p + 2 * |input| / 3 + 15
  {
    forall i | 0 <= i && i + 2 < |input|
      ensures ThreeAt(input, i) in ThreesBefore(input, p)
    {
      PeriodicThree(input, p, i);
    }
    ThreesBeforeSize(input, p);
    Subset(Threes(input), ThreesBefore(input, p));
    hide RepeatsFrom, ExactHash, Threes, ThreesBefore;
  }

  /** The bytes written and the open run after `n` more literals. */
  function AfterLiterals(c: Config, n: nat): (r: (nat, nat)) {
    (c.size + n + (c.copy + n) / MAX_COPY, (c.copy + n) % MAX_COPY)
  }

  lemma AfterNone(hash: nat -> nat, c: Config)
    requires Proper(hash, c)
    ensures AfterLiterals(c, 0) == (c.size, c.copy)
  {
  }

  lemma AfterNext(c: Config, n: nat)
    ensures var (op, copy) := AfterLiterals(c, n);
            AfterLiterals(c, n + 1) == (op + 1 + (copy + 1) / MAX_COPY, (copy + 1) % MAX_COPY)
  {
    var k := c.copy + n;
    assert k == k / 32 * 32 + k % 32;
  }

  /** The left-over literals are written and the last header is patched or dropped. */
  lemma FinalSize(level: Level, input: seq<Byte>, hash: nat -> nat, c: Config, size: nat)
    requires Proper(hash, c) && Behaves(level, input, hash, c) && c.ip <= |input| <= c.ip + 12
    requires var (op, copy) := AfterLiterals(c, |input| - c.ip);
             size == if copy == 0 then op - 1 else op
    ensures Compressed(level, input, hash, size)
    ensures NoRepeat(input) ==>
              AfterLiterals(c, |input| - c.ip) == (SizeBound(|input|), |input| % MAX_COPY)
  {
    hide HashOfThree, ExactHash, NoRepeat, RepeatsFrom, Repeating, Plain, Known, Threes, Changes, Cheap, Finding,
      AfterLiterals, Proper;
    if NoRepeat(input) {
      PlainEnd(hash, c, |input|);
    }
    if HashOfThree(input, hash) {
      CheapEnd(input, hash, c);
    }
    if |input| <= 8191 && ExactHash(input, hash) {
      FindingEnd(input, hash, c);
    }
    forall q: nat, p: nat | RepeatsFrom(level, input, hash, q, p)
      ensures size <= LiteralSize(q) + if level == One then 3 * ((|input| - q) / 262) + 7 else (|input| - q) / 255 + 9
    {
      RepeatingEnd(level, input, hash, c, q, p);
    }
  }

  lemma PlainEnd(hash: nat -> nat, c: Config, n: nat)
    requires Proper(hash, c) && Plain(c) && c.ip <= n
    ensures AfterLiterals(c, n - c.ip) == (SizeBound(n), n % MAX_COPY)
    ensures LiteralSize(n) == if n % MAX_COPY == 0 then SizeBound(n) - 1 else SizeBound(n)
  {
  }

  lemma RepeatingEnd(level: Level, input: seq<Byte>, hash: nat -> nat, c: Config, q: nat, p: nat)
    requires Proper(hash, c) && RepeatsFrom(level, input, hash, q, p) && Repeating(level, input, hash, c, q, p)
    requires c.ip <= |input| <= c.ip + 12
    ensures var (op, copy) := AfterLiterals(c, |input| - c.ip);
            op <= LiteralSize(q) + if level == One then 3 * ((|input| - q) / 262) + 7 else (|input| - q) / 255 + 9
  {
    hide NewUntil, Undisturbed, Repeats, LiteralSize;
  }

  lemma CheapEnd(input: seq<Byte>, hash: nat -> nat, c: Config)
    requires Proper(hash, c) && Cheap(input, hash, c) && c.ip <= |input| <= c.ip + 12
    ensures var (op, copy) := AfterLiterals(c, |input| - c.ip);
            op <= 18 * Changes(input, |input|) + |input| / 85 + 22
  {
    var n := |input|;
    ChangesEnd(input, n + 2);
    ChangesMonotonic(input, c.ip, n + 2);
    ChangesMonotonic(input, c.ip + 1, n + 2);
    ChangesMonotonic(input, c.ip + 2, n + 2);
    assert Weight(input, c.ip) <= 3 * Changes(input, n);
    hide Changes, Weight, Proper;
    WithinEnd(c.size, c.ip, Weight(input, c.ip), if c.ip + 3 < n then 9 else 15, Changes(input, n), n);
  }

  lemma WithinEnd(size: nat, ip: nat, weight: nat, slack: nat, changes: nat, n: nat)
    requires Within(size, ip, weight, slack) && weight <= 3 * changes && ip <= n
    ensures size <= slack + 18 * changes + n / 85
  {
  }

  lemma FindingEnd(input: seq<Byte>, hash: nat -> nat, c: Config)
    requires Proper(hash, c) && Finding(input, hash, c) && c.ip <= |input| <= c.ip + 12
    ensures var (op, copy) := AfterLiterals(c, |input| - c.ip);
            (if copy == 0 then op - 1 else op) <= 2 * |Threes(input)| + 2 * |input| / 3 + 15
  {
    hide Threes, Known;
  }
}
