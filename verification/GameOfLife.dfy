/**
 * The Game-of-Life cell agent: the toroidal neighbour arithmetic that names a cell's
 * eight neighbours, and the cycle step that reads the neighbours' states for the
 * previous cycle from the agent's key/value state, applies the B3/S23 rule, guards the
 * write of the new state with a compare-and-swap and advances the cycle counter.
 *
 * Messaging is not modelled: a cell's neighbours are given by their ids, and what the
 * cell would send or trigger after an advance is recorded as an announced state.
 */
module GameOfLife {
  import opened Results
  import opened JavaStrings

  // ----- Java integer arithmetic -----

  function Abs(x: int): nat {
    if x < 0 then -x else x
  }

  /** Java's `%`: the remainder takes the sign of the dividend. */
  function JavaRem(a: int, b: int): (r: int)
    requires b != 0
    ensures a >= 0 ==> 0 <= r < Abs(b)
    ensures a < 0 ==> r <= 0 && r + Abs(b) > 0
  {
    if a >= 0 then a % Abs(b) else -((-a) % Abs(b))
  }

  /** Java's `/`: the quotient is truncated toward zero. */
  function JavaDiv(a: int, b: int): int
    requires b != 0
  {
    var q := Abs(a) / Abs(b);
    if (a < 0) == (b < 0) then q else -q
  }

  /** Java's division identity `(a / b) * b + a % b == a`. */
  lemma JavaDivRem(a: int, b: int)
    requires b != 0
    ensures JavaDiv(a, b) * b + JavaRem(a, b) == a
  {
    var q, m := Abs(a) / Abs(b), Abs(a) % Abs(b);
    assert q * Abs(b) + m == Abs(a);
    if b < 0 {
      assert q * Abs(b) == -q * b;
    }
  }

  // ----- the torus -----

  /** `calcBack(cN, cM, M)`: the agent number of the cell at row `cN`, column `cM`. */
  function CalcBack(cN: int, cM: int, M: int): int {
    cM + cN * M
  }

  /** The row and column of an agent number, as `calcNeighbours` computes them; agent 0
      is given row 0 and column 0 without dividing. */
  function Coordinates(agentNo: int, N: int): (int, int)
    requires N >= 1
  {
    if agentNo != 0 then (JavaDiv(agentNo, N), JavaRem(agentNo, N)) else (0, 0)
  }

  /** An agent number of an N by N grid is rebuilt from its coordinates, and the
      coordinates lie on the grid. */
  lemma CoordinatesRoundTrip(agentNo: int, N: int)
    requires N >= 1 && 0 <= agentNo < N * N
    ensures var (cN, cM) := Coordinates(agentNo, N);
            && 0 <= cN < N && 0 <= cM < N
            && CalcBack(cN, cM, N) == agentNo
  {
    if agentNo != 0 {
      JavaOnNatural(agentNo, N);
      QuotientBelow(agentNo, N);
      var q, m := agentNo / N, agentNo % N;
      assert Coordinates(agentNo, N) == (q, m);
      assert q * N == N * q;
      assert agentNo == N * q + m;
      if q < 0 {
        MulMonotone(q, -1, N);
      }
    }
  }

  /** On a non-negative dividend and a positive divisor Java's `/` and `%` agree with
      Euclidean division. */
  lemma JavaOnNatural(a: int, b: int)
    requires a >= 0 && b >= 1
    ensures JavaDiv(a, b) == a / b && JavaRem(a, b) == a % b
  {
    assert Abs(a) == a && Abs(b) == b;
  }

  /** Below N * N the quotient by N is below N. */
  lemma QuotientBelow(x: int, N: int)
    requires N >= 1 && 0 <= x < N * N
    ensures x / N < N
  {
    var q := x / N;
    assert q * N <= x;
    if q >= N {
      MulMonotone(N, q, N);
    }
  }

  lemma MulMonotone(a: int, b: int, c: int)
    requires a <= b && c >= 0
    ensures a * c <= b * c
  {
    var d := b - a;
    assert b * c == a * c + d * c;
  }

  /** The row offset of neighbour case `id`. */
  function RowStep(id: int): int
    requires 0 <= id < 8
  {
    [-1, 0, 1, -1, 1, -1, 0, 1][id]
  }

  /** The column offset of neighbour case `id`. */
  function ColumnStep(id: int): int
    requires 0 <= id < 8
  {
    [-1, -1, -1, 0, 0, 1, 1, 1][id]
  }

  /** Reference definition: one step off the grid edge wraps around to the other side. */
  function Wrap(x: int, N: int): int
    requires N >= 1
  {
    if x < 0 then N - 1 else if x >= N then 0 else x
  }

  /** `getNeighborNo(id, cN, cM, N, M)`: for the cases 0 to 7 the agent number of a
      neighbouring cell, each coordinate shifted by -1, 0 or +1 modulo the grid size;
      any other case gives 0. */
  function GetNeighborNo(id: int, cN: int, cM: int, N: int, M: int): int
    requires N >= 1 && M >= 1
  {
    match id
    case 0 => CalcBack(JavaRem(N + cN - 1, N), JavaRem(M + cM - 1, M), M)
    case 1 => CalcBack(JavaRem(N + cN, N), JavaRem(M + cM - 1, M), M)
    case 2 => CalcBack(JavaRem(N + cN + 1, N), JavaRem(M + cM - 1, M), M)
    case 3 => CalcBack(JavaRem(N + cN - 1, N), JavaRem(M + cM, M), M)
    case 4 => CalcBack(JavaRem(N + cN + 1, N), JavaRem(M + cM, M), M)
    case 5 => CalcBack(JavaRem(N + cN - 1, N), JavaRem(M + cM + 1, M), M)
    case 6 => CalcBack(JavaRem(N + cN, N), JavaRem(M + cM + 1, M), M)
    case 7 => CalcBack(JavaRem(N + cN + 1, N), JavaRem(M + cM + 1, M), M)
    case _ => 0
  }

  /** Shifting an on-grid coordinate by at most one, modulo the grid size, wraps. */
  lemma RemWraps(c: int, d: int, N: int)
    requires N >= 1 && 0 <= c < N && -1 <= d <= 1
    ensures JavaRem(N + c + d, N) == Wrap(c + d, N)
  {
    var x := N + c + d;
    assert x >= 0 && Abs(N) == N;
    assert JavaRem(x, N) == x % N;
    if c + d < 0 {
      ModBelow(N - 1, N);
    } else if c + d >= N {
      ModDouble(N);
    } else {
      ModOnce(x, N);
    }
  }

  /** A remainder of a number below the divisor is the number. */
  lemma ModBelow(x: int, N: int)
    requires 0 <= x < N
    ensures x % N == x
  {
  }

  /** Twice the divisor leaves no remainder. */
  lemma ModDouble(N: int)
    requires N >= 1
    ensures (2 * N) % N == 0
  {
    assert 2 * N == N * 2;
  }

  /** A remainder of a number between one and two divisors is what is left above one. */
  lemma ModOnce(x: int, N: int)
    requires N >= 1 && N <= x < 2 * N
    ensures x % N == x - N
  {
    ModBelow(x - N, N);
    assert x == (x - N) + N;
  }

  /** The eight cases are the eight steps of the Moore neighbourhood on the torus. */
  lemma NeighborIsMooreStep(id: int, cN: int, cM: int, N: int, M: int)
    requires N >= 1 && M >= 1 && 0 <= cN < N && 0 <= cM < M && 0 <= id < 8
    ensures GetNeighborNo(id, cN, cM, N, M)
            == CalcBack(Wrap(cN + RowStep(id), N), Wrap(cM + ColumnStep(id), M), M)
  {
    RemWraps(cN, RowStep(id), N);
    RemWraps(cM, ColumnStep(id), M);
    assert N + cN + RowStep(id) == N + (cN + RowStep(id));
  }

  /** An agent number built from on-grid coordinates is on the grid. */
  lemma CalcBackInRange(cN: int, cM: int, N: int, M: int)
    requires 0 <= cN < N && 0 <= cM < M
    ensures 0 <= CalcBack(cN, cM, M) < N * M
  {
    assert cN * M <= (N - 1) * M;
  }

  /** On-grid coordinates are recovered from their agent number: distinct coordinates
      give distinct numbers. */
  lemma CalcBackInjective(n1: int, m1: int, n2: int, m2: int, M: int)
    requires 0 <= m1 < M && 0 <= m2 < M && 0 <= n1 && 0 <= n2
    ensures CalcBack(n1, m1, M) == CalcBack(n2, m2, M) <==> n1 == n2 && m1 == m2
  {
    if n1 < n2 {
      MulMonotone(n1 + 1, n2, M);
      assert (n1 + 1) * M == n1 * M + M;
    } else if n2 < n1 {
      MulMonotone(n2 + 1, n1, M);
      assert (n2 + 1) * M == n2 * M + M;
    }
  }

  /** A neighbour of an on-grid cell is on the grid, and a case outside 0 to 7 gives 0. */
  lemma NeighborInRange(id: int, cN: int, cM: int, N: int, M: int)
    requires N >= 1 && M >= 1 && 0 <= cN < N && 0 <= cM < M
    ensures 0 <= id < 8 ==> 0 <= GetNeighborNo(id, cN, cM, N, M) < N * M
    ensures !(0 <= id < 8) ==> GetNeighborNo(id, cN, cM, N, M) == 0
  {
    if 0 <= id < 8 {
      NeighborIsMooreStep(id, cN, cM, N, M);
      CalcBackInRange(Wrap(cN + RowStep(id), N), Wrap(cM + ColumnStep(id), M), N, M);
    }
  }

  /** On a torus of at least three cells a side, different steps of at most one land on
      different coordinates. */
  lemma WrapDistinct(c: int, d1: int, d2: int, N: int)
    requires N >= 3 && 0 <= c < N && -1 <= d1 <= 1 && -1 <= d2 <= 1
    ensures Wrap(c + d1, N) == Wrap(c + d2, N) <==> d1 == d2
  {
  }

  /** For N = M >= 3 the eight neighbours of a cell are pairwise distinct and none of them
      is the cell itself. */
  lemma NeighborsDistinct(i: int, j: int, cN: int, cM: int, N: int)
    requires N >= 3 && 0 <= cN < N && 0 <= cM < N && 0 <= i < 8 && 0 <= j < 8
    ensures GetNeighborNo(i, cN, cM, N, N) != CalcBack(cN, cM, N)
    ensures i != j ==> GetNeighborNo(i, cN, cM, N, N) != GetNeighborNo(j, cN, cM, N, N)
  {
    NeighborIsMooreStep(i, cN, cM, N, N);
    NeighborIsMooreStep(j, cN, cM, N, N);
    var ni, mi := Wrap(cN + RowStep(i), N), Wrap(cM + ColumnStep(i), N);
    var nj, mj := Wrap(cN + RowStep(j), N), Wrap(cM + ColumnStep(j), N);
    WrapDistinct(cN, RowStep(i), 0, N);
    WrapDistinct(cM, ColumnStep(i), 0, N);
    WrapDistinct(cN, RowStep(i), RowStep(j), N);
    WrapDistinct(cM, ColumnStep(i), ColumnStep(j), N);
    CalcBackInjective(ni, mi, cN, cM, N);
    CalcBackInjective(ni, mi, nj, mj, N);
  }

  /** Being neighbours is symmetric: the cell reached by case `id` reaches back by the
      mirrored case `7 - id`. */
  lemma NeighborSymmetric(id: int, cN: int, cM: int, N: int)
    requires N >= 1 && 0 <= cN < N && 0 <= cM < N && 0 <= id < 8
    ensures var b := GetNeighborNo(id, cN, cM, N, N);
            GetNeighborNo(7 - id, b / N, b % N, N, N) == CalcBack(cN, cM, N)
  {
    var b := GetNeighborNo(id, cN, cM, N, N);
    var bN, bM := Wrap(cN + RowStep(id), N), Wrap(cM + ColumnStep(id), N);
    assert b == CalcBack(bN, bM, N) by {
      NeighborIsMooreStep(id, cN, cM, N, N);
    }
    assert b / N == bN && b % N == bM by {
      CoordinatesOfCalcBack(bN, bM, N);
    }
    MirroredStep(id);
    assert Wrap(bN + RowStep(7 - id), N) == cN by {
      WrapBack(cN, RowStep(id), N);
    }
    assert Wrap(bM + ColumnStep(7 - id), N) == cM by {
      WrapBack(cM, ColumnStep(id), N);
    }
    NeighborIsMooreStep(7 - id, bN, bM, N, N);
  }

  /** Case `7 - id` steps in the direction opposite to case `id`. */
  lemma MirroredStep(id: int)
    requires 0 <= id < 8
    ensures RowStep(7 - id) == -RowStep(id) && ColumnStep(7 - id) == -ColumnStep(id)
  {
  }

  /** Division and remainder by the row length recover on-grid coordinates. */
  lemma CoordinatesOfCalcBack(n: int, m: int, M: int)
    requires 0 <= n && 0 <= m < M
    ensures CalcBack(n, m, M) / M == n && CalcBack(n, m, M) % M == m
  {
    var b := CalcBack(n, m, M);
    assert b >= 0 by {
      MulMonotone(0, n, M);
    }
    CalcBackInjective(b / M, b % M, n, m, M);
  }

  /** Stepping back from a wrapped step returns to the start. */
  lemma WrapBack(c: int, d: int, N: int)
    requires N >= 1 && 0 <= c < N && -1 <= d <= 1
    ensures Wrap(Wrap(c + d, N) + -d, N) == c
  {
  }

  // ----- calcNeighbours and addPath -----

  /** `addPath(odd, even, path, agentNo)`: the even prefix for an even agent number, the
      odd one otherwise. */
  function AddPath(odd: string, even: string, path: string, agentNo: int): (r: string)
    ensures agentNo % 2 == 0 ==> r == even + path
    ensures agentNo % 2 != 0 ==> r == odd + path
  {
    (if JavaRem(agentNo, 2) == 0 then even else odd) + path
  }

  /** Why `calcNeighbours` can fail: a grid of size 0 divides by zero. */
  datatype GridError = DivisionByZero

  /** `calcNeighbours(odd, even, agentNo, totalSize)` with the side `N` already taken from
      the square root of the total size: the addresses of the eight neighbours in case
      order, each the parity prefix followed by the agent prefix and number. */
  function CalcNeighbours(odd: string, even: string, prefix: string, agentNo: int, N: nat): (r: Result<seq<string>, GridError>)
    ensures N == 0 <==> r.Failure?
    ensures r.Success? ==> |r.value| == 8
  {
    if N == 0 then Failure(DivisionByZero)
    else
      var (cN, cM) := Coordinates(agentNo, N);
      Success(seq(8, id requires 0 <= id < 8 =>
        var no := GetNeighborNo(id, cN, cM, N, N);
        AddPath(odd, even, prefix + IntToString(no), no)))
  }

  /** The address at index `id` is the one of the cell a Moore step in direction `id`
      away on the torus, behind the prefix its parity selects; that cell is on the grid,
      and it is not the cell itself once the side is at least 3. */
  lemma NeighbourAddresses(odd: string, even: string, prefix: string, agentNo: int, N: nat, id: int)
    requires N >= 1 && 0 <= agentNo < N * N && 0 <= id < 8
    ensures var r := CalcNeighbours(odd, even, prefix, agentNo, N);
            var no := CalcBack(Wrap(agentNo / N + RowStep(id), N), Wrap(agentNo % N + ColumnStep(id), N), N);
            && 0 <= no < N * N && (N >= 3 ==> no != agentNo)
            && r.value[id] == (if no % 2 == 0 then even else odd) + prefix + IntToString(no)
  {
    var (cN, cM) := Coordinates(agentNo, N);
    CoordinatesRoundTrip(agentNo, N);
    CoordinatesOfCalcBack(cN, cM, N);
    assert cN == agentNo / N && cM == agentNo % N;
    var no := GetNeighborNo(id, cN, cM, N, N);
    NeighborIsMooreStep(id, cN, cM, N, N);
    NeighborInRange(id, cN, cM, N, N);
    if N >= 3 {
      NeighborsDistinct(id, id, cN, cM, N);
    }
    var r := CalcNeighbours(odd, even, prefix, agentNo, N);
    assert r.value[id] == (if no % 2 == 0 then even else odd) + prefix + IntToString(no);
  }

  /** On a grid of side at least 3 the eight addresses are pairwise distinct, and none of
      them is the cell's own address, when the two parity prefixes have the same length. */
  lemma NeighbourAddressesDistinct(odd: string, even: string, prefix: string, agentNo: int, N: nat, i: int, j: int)
    requires N >= 3 && 0 <= agentNo < N * N && 0 <= i < 8 && 0 <= j < 8
    requires |odd| == |even|
    ensures var r := CalcNeighbours(odd, even, prefix, agentNo, N);
            && r.value[i] != AddPath(odd, even, prefix + IntToString(agentNo), agentNo)
            && (i != j ==> r.value[i] != r.value[j])
  {
    var (cN, cM) := Coordinates(agentNo, N);
    CoordinatesRoundTrip(agentNo, N);
    NeighborsDistinct(i, j, cN, cM, N);
    var r := CalcNeighbours(odd, even, prefix, agentNo, N);
    var ni, nj := GetNeighborNo(i, cN, cM, N, N), GetNeighborNo(j, cN, cM, N, N);
    assert r.value[i] == AddPath(odd, even, prefix + IntToString(ni), ni);
    assert r.value[j] == AddPath(odd, even, prefix + IntToString(nj), nj);
    if r.value[i] == AddPath(odd, even, prefix + IntToString(agentNo), agentNo) {
      AddressDetermines(odd, even, prefix, ni, agentNo);
    }
    if i != j && r.value[i] == r.value[j] {
      AddressDetermines(odd, even, prefix, ni, nj);
    }
  }

  /** With parity prefixes of one length, an address determines its agent number. */
  lemma AddressDetermines(odd: string, even: string, prefix: string, a: int, b: int)
    requires |odd| == |even|
    requires AddPath(odd, even, prefix + IntToString(a), a) == AddPath(odd, even, prefix + IntToString(b), b)
    ensures a == b
  {
    var x, y := AddPath(odd, even, prefix + IntToString(a), a), AddPath(odd, even, prefix + IntToString(b), b);
    var k := |odd| + |prefix|;
    assert x[k..] == IntToString(a);
    assert y[k..] == IntToString(b);
    IntToStringInjective(a, b);
  }

  // ----- the agent's state -----

  /** `CycleState`: a cell's liveness in one cycle. */
  datatype CycleState = CycleState(cycle: int, alive: bool)

  /** The values the cell keeps in its key/value state. */
  datatype Value =
    | BoolValue(b: bool)
    | IntValue(i: int)
    | CycleValue(state: CycleState)
    | NamesValue(names: seq<string>)

  type State = map<string, Value>

  const StoppedKey: string := "Stopped"
  const NeighborsKey: string := "neighbors"
  const CurrentCycleKey: string := "current_cycle"

  /** `"val_" + c`: where the cell keeps its own state of cycle `c`. */
  function ValKey(c: int): (r: string)
    ensures |r| > 4 && r[0] == 'v' && r[3] == '_'
  {
    "val_" + IntToString(c)
  }

  /** `neighborId + "_" + c`: where the cell keeps a neighbour's state of cycle `c`. */
  function NeighbourKey(id: string, c: int): string {
    id + "_" + IntToString(c)
  }

  /** A typed read of the state; a missing key, or a value of another type, reads as null. */
  function GetInt(s: State, key: string): (r: Option<int>)
    ensures r.Some? <==> key in s && s[key].IntValue?
    ensures r.Some? ==> s[key] == IntValue(r.value)
  {
    if key in s && s[key].IntValue? then Some(s[key].i) else None
  }

  function GetBool(s: State, key: string): (r: Option<bool>)
    ensures r.Some? <==> key in s && s[key].BoolValue?
    ensures r.Some? ==> s[key] == BoolValue(r.value)
  {
    if key in s && s[key].BoolValue? then Some(s[key].b) else None
  }

  function GetCycle(s: State, key: string): (r: Option<CycleState>)
    ensures r.Some? <==> key in s && s[key].CycleValue?
    ensures r.Some? ==> s[key] == CycleValue(r.value)
  {
    if key in s && s[key].CycleValue? then Some(s[key].state) else None
  }

  /** `create(neighbors, initState)`: not stopped, the neighbours stored, cycle 0 holding
      the initial liveness, and cycle 1 next; the rest of the state is kept. */
  function Create(s: State, neighbors: seq<string>, initState: bool): (r: State)
    ensures GetBool(r, StoppedKey) == Some(false)
    ensures NeighborsKey in r && r[NeighborsKey] == NamesValue(neighbors)
    ensures GetCycle(r, ValKey(0)) == Some(CycleState(0, initState))
    ensures GetInt(r, CurrentCycleKey) == Some(1)
    ensures r.Keys == s.Keys + {StoppedKey, NeighborsKey, ValKey(0), CurrentCycleKey}
    ensures forall k :: k in s && k !in {StoppedKey, NeighborsKey, ValKey(0), CurrentCycleKey} ==> r[k] == s[k]
  {
    s[StoppedKey := BoolValue(false)]
     [NeighborsKey := NamesValue(neighbors)]
     [ValKey(0) := CycleValue(CycleState(0, initState))]
     [CurrentCycleKey := IntValue(1)]
  }

  /** Why `new_create` can fail: the agent id does not end in a number, or the grid is
      empty. */
  datatype CreateError = NumberFormat | GridDivisionByZero

  /** What `new_create` leaves behind: its first three writes happen before anything can
      fail, so a failed call still leaves them in the state. */
  datatype CreateOutcome = CreateOutcome(state: State, error: Option<CreateError>)

  /** The agent number in an agent id: the text after its first `_`, or the whole id when
      there is none, parsed as a decimal integer. */
  function AgentNumber(id: string): (r: Option<int>)
    ensures Free(id, '_') ==> r == ParseInt(id)
  {
    ParseInt(id[IndexOf(id, '_') + 1..])
  }

  /** An id made of a prefix, `_` and a rendered number names that number when the prefix
      has no `_` of its own and the number fits in an `int`; a larger number is a
      NumberFormatException. */
  lemma AgentNumberOfId(prefix: string, no: int)
    requires Free(prefix, '_')
    ensures AgentNumber(prefix + "_" + IntToString(no)) == if InIntRange(no) then Some(no) else None
  {
    var id := prefix + "_" + IntToString(no);
    assert id[|prefix|] == '_' && id[..|prefix|] == prefix;
    assert IndexOf(id, '_') == |prefix|;
    assert id[|prefix| + 1..] == IntToString(no);
    ParseIntOfIntToString(no);
  }

  /** The first three writes of `new_create`: not stopped, cycle 0 holding the initial
      liveness, and cycle 1 next. */
  function Started(s: State, initState: bool): (r: State)
    ensures GetBool(r, StoppedKey) == Some(false)
    ensures GetCycle(r, ValKey(0)) == Some(CycleState(0, initState))
    ensures GetInt(r, CurrentCycleKey) == Some(1)
    ensures r.Keys == s.Keys + {StoppedKey, ValKey(0), CurrentCycleKey}
    ensures forall k :: k in s && k !in {StoppedKey, ValKey(0), CurrentCycleKey} ==> r[k] == s[k]
  {
    s[StoppedKey := BoolValue(false)]
     [ValKey(0) := CycleValue(CycleState(0, initState))]
     [CurrentCycleKey := IntValue(1)]
  }

  /** `new_create(odd, even, initState, totalSize)` for the agent `id`, with the grid side
      `N` given: the agent number is read from the id and the neighbours computed from it. */
  function NewCreate(s: State, id: string, odd: string, even: string, prefix: string, initState: bool, N: nat): (r: CreateOutcome)
    ensures GetBool(r.state, StoppedKey) == Some(false)
    ensures GetCycle(r.state, ValKey(0)) == Some(CycleState(0, initState))
    ensures GetInt(r.state, CurrentCycleKey) == Some(1)
    ensures r.error == Some(NumberFormat) <==> AgentNumber(id).None?
    ensures r.error == Some(GridDivisionByZero) <==> AgentNumber(id).Some? && N == 0
    ensures r.error.None? ==>
              (NeighborsKey in r.state &&
               r.state[NeighborsKey] == NamesValue(CalcNeighbours(odd, even, prefix, AgentNumber(id).value, N).value))
    ensures r.state.Keys == s.Keys + {StoppedKey, ValKey(0), CurrentCycleKey} + (if r.error.None? then {NeighborsKey} else {})
    ensures forall k :: k in s && k !in {StoppedKey, ValKey(0), CurrentCycleKey} && (r.error.Some? || k != NeighborsKey) ==>
              r.state[k] == s[k]
  {
    var s1 := Started(s, initState);
    match AgentNumber(id)
    case None => CreateOutcome(s1, Some(NumberFormat))
    case Some(agentNo) =>
      match CalcNeighbours(odd, even, prefix, agentNo, N)
      case Failure(_) => CreateOutcome(s1, Some(GridDivisionByZero))
      case Success(neighbors) =>
        var r := s1[NeighborsKey := NamesValue(neighbors)];
        assert r.Keys == s1.Keys + {NeighborsKey};
        CreateOutcome(r, None)
  }

  // ----- putIfUnchanged -----

  /** `putIfUnchanged(key, v, expected)` as a sequential compare-and-swap: it writes only
      when the current value is the expected one, where a null expectation means the key
      is absent. */
  function PutIfUnchanged(s: State, key: string, v: Value, expected: Option<Value>): (r: (bool, State))
    ensures r.0 <==> (expected.None? && key !in s) || (expected.Some? && key in s && s[key] == expected.value)
    ensures r.0 ==> r.1 == s[key := v]
    ensures !r.0 ==> r.1 == s
  {
    var current := if key in s then Some(s[key]) else None;
    if current == expected then (true, s[key := v]) else (false, s)
  }

  /** Writers racing to fill the same empty slot, one after the other: which of them
      succeeded, and the state left behind. */
  function PutAllIfAbsent(s: State, key: string, vs: seq<Value>): (seq<bool>, State)
    decreases |vs|
  {
    if |vs| == 0 then ([], s)
    else
      var (ok, s1) := PutIfUnchanged(s, key, vs[0], None);
      var (rest, s2) := PutAllIfAbsent(s1, key, vs[1..]);
      ([ok] + rest, s2)
  }

  /** Of several writers racing for an empty slot exactly the first wins, and its value
      stays. */
  lemma {:induction false} FirstWriterWins(s: State, key: string, vs: seq<Value>)
    requires key !in s && |vs| >= 1
    ensures var (wins, r) := PutAllIfAbsent(s, key, vs);
            && |wins| == |vs|
            && (forall i :: 0 <= i < |wins| ==> (wins[i] <==> i == 0))
            && key in r && r[key] == vs[0]
  {
    var s1 := s[key := vs[0]];
    WritersAfterLose(s1, key, vs[1..]);
  }

  /** Once the slot is filled every later writer loses and the state is unchanged. */
  lemma {:induction false} WritersAfterLose(s: State, key: string, vs: seq<Value>)
    requires key in s
    ensures var (wins, r) := PutAllIfAbsent(s, key, vs);
            |wins| == |vs| && (forall i :: 0 <= i < |wins| ==> !wins[i]) && r == s
    decreases |vs|
  {
    if |vs| > 0 {
      WritersAfterLose(s, key, vs[1..]);
    }
  }

  // ----- the B3/S23 rule -----

  /** Reference definition of Conway's rule B3/S23: a cell is born with exactly three live
      neighbours and survives with two or three. */
  predicate LivesNext(wasAlive: bool, liveNeighbours: int) {
    liveNeighbours == 3 || (wasAlive && liveNeighbours == 2)
  }

  /** The number of live states among `xs`. */
  function AliveCount(xs: seq<CycleState>): (n: nat)
    ensures n <= |xs|
    ensures n == 0 <==> forall i :: 0 <= i < |xs| ==> !xs[i].alive
  {
    if |xs| == 0 then 0 else (if xs[0].alive then 1 else 0) + AliveCount(xs[1..])
  }

  /** The cell's state for cycle `c` from its live neighbour count and its own previous
      state; the previous state is only read with exactly two live neighbours, and its
      absence then is a null dereference (`None`). */
  function NextState(n: nat, mine: Option<CycleState>, c: int): (r: Option<CycleState>)
    ensures r.None? <==> n == 2 && mine.None?
    ensures r.Some? ==> r.value.cycle == c
  {
    if n < 2 || n > 3 then Some(CycleState(c, false))
    else if n == 3 then Some(CycleState(c, true))
    else if mine.Some? then Some(CycleState(c, mine.value.alive))
    else None
  }

  /** The step rule is Conway's B3/S23. */
  lemma NextStateIsLife(n: nat, mine: Option<CycleState>, c: int)
    ensures mine.Some? ==> NextState(n, mine, c) == Some(CycleState(c, LivesNext(mine.value.alive, n)))
    ensures mine.None? && n != 2 ==> NextState(n, mine, c) == Some(CycleState(c, n == 3))
  {
  }

  // ----- calcCycle -----

  /** The neighbours' states for cycle `c`, in neighbour order, if all are known. */
  function NeighbourStates(s: State, ids: seq<string>, c: int): (r: Option<seq<CycleState>>)
    ensures r.None? <==> exists i :: 0 <= i < |ids| && GetCycle(s, NeighbourKey(ids[i], c)).None?
    ensures r.Some? ==> |r.value| == |ids|
    ensures r.Some? ==> forall i :: 0 <= i < |ids| ==> GetCycle(s, NeighbourKey(ids[i], c)) == Some(r.value[i])
    decreases |ids|
  {
    if |ids| == 0 then Some([])
    else match GetCycle(s, NeighbourKey(ids[0], c))
      case None => None
      case Some(first) =>
        match NeighbourStates(s, ids[1..], c)
        case None =>
          assert exists i :: 0 <= i < |ids| && GetCycle(s, NeighbourKey(ids[i], c)).None? by {
            var i :| 0 <= i < |ids| - 1 && GetCycle(s, NeighbourKey(ids[1..][i], c)).None?;
            assert ids[1..][i] == ids[i + 1];
          }
          None
        case Some(rest) =>
          assert forall i :: 1 <= i < |ids| ==> ids[i] == ids[1..][i - 1];
          Some([first] + rest)
  }

  /** The keys of the neighbours' entries for cycle `c`. */
  function NeighbourKeys(ids: seq<string>, c: int): set<string> {
    set i | 0 <= i < |ids| :: NeighbourKey(ids[i], c)
  }

  /** The state without the neighbours' entries for cycle `c`. */
  function RemoveNeighbourStates(s: State, ids: seq<string>, c: int): (r: State)
    ensures r.Keys == s.Keys - NeighbourKeys(ids, c)
    ensures forall k :: k in r ==> r[k] == s[k]
  {
    s - NeighbourKeys(ids, c)
  }

  /** How a run of `calcCycle` ends: waiting for neighbour states, beaten to the write by
      a concurrent step, halted by the Stopped flag after an advance, failed on a null
      dereference, or out of fuel. */
  datatype End = Waiting | Lost | Halted | Faulted | OutOfFuel

  /** One pass of `calcCycle`: either an advance that goes on recursing, with the state the
      cell announces, or the end of the run with the state left behind. */
  datatype StepResult = Next(state: State, announced: CycleState) | Done(state: State, end: End)

  /** What the reading half of a pass decides: wait, fail on a null dereference, or try
      to write the state `next` for cycle `c`. */
  datatype Plan = Wait | Fault | Write(c: int, next: CycleState)

  /** The reading half of `calcCycle`: the current cycle c, the neighbours' states for
      c - 1, at least eight of them, and the new state by the rule. */
  function PlanStep(s: State, ids: seq<string>): (p: Plan)
    ensures GetInt(s, CurrentCycleKey) in {None, Some(0)} ==> p == Wait
    ensures p.Write? ==> GetInt(s, CurrentCycleKey) == Some(p.c) && p.c != 0 && p.next.cycle == p.c
    ensures p.Write? ==> NeighbourStates(s, ids, p.c - 1).Some? && |ids| >= 8
  {
    match GetInt(s, CurrentCycleKey)
    case None => Wait
    case Some(c) =>
      if c == 0 then Wait
      else match NeighbourStates(s, ids, c - 1)
        case None => Wait
        case Some(states) =>
          if |ids| < 8 then Wait
          else match NextState(AliveCount(states), GetCycle(s, ValKey(c - 1)), c)
            case None => Fault
            case Some(next) => Write(c, next)
  }

  /** The writing half of `calcCycle` for cycle `c`: claim `val_c` with a compare-and-swap
      expecting it absent, advance the counter, read the Stopped flag, and unless stopped
      clear the neighbours' entries for c - 1 and go on. */
  function Commit(s: State, ids: seq<string>, c: int, next: CycleState): (r: StepResult)
    ensures ValKey(c) in s ==> r == Done(s, Lost)
    ensures r.Done? ==> r.end in {Lost, Halted, Faulted} && (r.end == Lost ==> r.state == s)
    ensures r.Next? ==> r.announced == next && GetInt(r.state, CurrentCycleKey) == Some(c + 1)
  {
    var (ok, s0) := PutIfUnchanged(s, ValKey(c), CycleValue(next), None);
    if !ok then Done(s, Lost)
    else
      var s1 := s0[CurrentCycleKey := IntValue(c + 1)];
      match GetBool(s1, StoppedKey)
      case None => Done(s1, Faulted)
      case Some(stopped) =>
        if stopped then Done(s1, Halted)
        else
          assert forall i :: 0 <= i < |ids| ==> NeighbourKey(ids[i], c - 1) != CurrentCycleKey by {
            forall i | 0 <= i < |ids| {
              NeighbourKeyNotCounter(ids[i], c - 1);
            }
          }
          Next(RemoveNeighbourStates(s1, ids, c - 1), next)
  }

  /** One pass of `calcCycle` with the neighbours' ids. */
  function Step(s: State, ids: seq<string>): (r: StepResult)
    ensures GetInt(s, CurrentCycleKey) in {None, Some(0)} ==> r == Done(s, Waiting)
  {
    match PlanStep(s, ids)
    case Wait => Done(s, Waiting)
    case Fault => Done(s, Faulted)
    case Write(c, next) => Commit(s, ids, c, next)
  }

  /** A run of `calcCycle`: the final state, the states announced to the neighbours in
      order, and how it ended. */
  datatype Run = Run(state: State, announced: seq<CycleState>, end: End)

  /** `calcCycle`: step until the run ends. The recursion in the source is unbounded (a
      neighbour whose id is "val" reads the cell's own states), so the model carries fuel. */
  function CalcCycle(s: State, ids: seq<string>, fuel: nat): (r: Run)
    ensures |r.announced| <= fuel
    ensures r.end == OutOfFuel ==> |r.announced| == fuel
    ensures |r.announced| == 0 && r.end in {Waiting, Lost, OutOfFuel} ==> r.state == s
    ensures GetInt(s, CurrentCycleKey).Some? ==> Numbered(r, GetInt(s, CurrentCycleKey).value)
    decreases fuel, 1
  {
    if fuel == 0 then Run(s, [], OutOfFuel)
    else
      StepFacts(s, ids);
      Continue(s, Step(s, ids), ids, fuel)
  }

  /** What a step guarantees, over plain values. */
  predicate StepOk(s: State, r: StepResult) {
    && (r.Done? ==> r.end != OutOfFuel && (r.end in {Waiting, Lost} ==> r.state == s))
    && (r.Next? ==> GetInt(s, CurrentCycleKey) == Some(r.announced.cycle)
                    && GetInt(r.state, CurrentCycleKey) == Some(r.announced.cycle + 1))
  }

  lemma StepFacts(s: State, ids: seq<string>)
    ensures StepOk(s, Step(s, ids))
  {
    StepEnds(s, ids);
    if Step(s, ids).Next? {
      StepCounts(s, ids);
    }
  }

  /** The rest of `calcCycle` after one step from `s` gave `r1`. */
  function Continue(s: State, r1: StepResult, ids: seq<string>, fuel: nat): (r: Run)
    requires fuel >= 1 && StepOk(s, r1)
    ensures |r.announced| <= fuel
    ensures r.end == OutOfFuel ==> |r.announced| == fuel
    ensures |r.announced| == 0 && r.end in {Waiting, Lost, OutOfFuel} ==> r.state == s
    ensures GetInt(s, CurrentCycleKey).Some? ==> Numbered(r, GetInt(s, CurrentCycleKey).value)
    decreases fuel, 0
  {
    match r1
    case Done(s1, end) => Run(s1, [], end)
    case Next(s1, a) =>
      var rest := CalcCycle(s1, ids, fuel - 1);
      RunExtends(fuel, a, s1, rest);
      Run(rest.state, [a] + rest.announced, rest.end)
  }

  /** A run starting from cycle c0 announces the states of cycles c0, c0 + 1, ... in
      order, and unless it stopped or failed after its last write it leaves the counter
      just past the last of them. */
  predicate Numbered(r: Run, c0: int) {
    (forall i :: 0 <= i < |r.announced| ==> r.announced[i].cycle == c0 + i) &&
    (|r.announced| > 0 && r.end in {Waiting, Lost, OutOfFuel} ==>
       GetInt(r.state, CurrentCycleKey) == Some(c0 + |r.announced|))
  }

  /** A run that the state of cycle c extends at the front, written from a state whose
      counter was then advanced to c + 1, is numbered from c when the rest is numbered
      from c + 1, and keeps within its fuel. */
  lemma RunExtends(fuel: nat, a: CycleState, s1: State, rest: Run)
    requires fuel >= 1 && |rest.announced| <= fuel - 1
    requires rest.end == OutOfFuel ==> |rest.announced| == fuel - 1
    requires GetInt(s1, CurrentCycleKey) == Some(a.cycle + 1)
    requires |rest.announced| == 0 && rest.end in {Waiting, Lost, OutOfFuel} ==> rest.state == s1
    requires Numbered(rest, a.cycle + 1)
    ensures var r := Run(rest.state, [a] + rest.announced, rest.end);
            && |r.announced| <= fuel && (r.end == OutOfFuel ==> |r.announced| == fuel)
            && |r.announced| > 0 && Numbered(r, a.cycle)
  {
    var r := Run(rest.state, [a] + rest.announced, rest.end);
    forall i | 0 <= i < |r.announced|
      ensures r.announced[i].cycle == a.cycle + i
    {
      if i > 0 {
        assert r.announced[i] == rest.announced[i - 1];
      }
    }
  }

  lemma NeighbourKeyNotCounter(id: string, c: int)
    ensures NeighbourKey(id, c) != CurrentCycleKey
  {
    var k := NeighbourKey(id, c);
    assert k[|k| - 1] == IntToString(c)[|IntToString(c)| - 1];
  }

  /** A neighbour key of cycle c - 1 never names the cell's own state of cycle c: the text
      after the last `_` differs. */
  lemma NeighbourKeyNotOwn(id: string, c: int)
    ensures NeighbourKey(id, c - 1) != ValKey(c)
  {
    var t1, t2 := IntToString(c - 1), IntToString(c);
    if NeighbourKey(id, c - 1) == ValKey(c) {
      SameTextAfterLast(id, t1, "val", t2);
      IntToStringInjective(c - 1, c);
    }
  }

  /** Two strings `a_t1` and `b_t2` whose tails hold no `_` agree only if the tails do. */
  lemma SameTextAfterLast(a: string, t1: string, b: string, t2: string)
    requires Free(t1, '_') && Free(t2, '_')
    requires a + "_" + t1 == b + "_" + t2
    ensures t1 == t2
  {
    assert a + "_" + t1 == a + ['_'] + t1;
    assert b + "_" + t2 == b + ['_'] + t2;
    LastIndexOfBefore(a, '_', t1);
    LastIndexOfBefore(b, '_', t2);
    assert t1 == (a + ['_'] + t1)[|a| + 1..];
    assert t2 == (b + ['_'] + t2)[|b| + 1..];
  }

  /** The three ways a step waits without touching anything: no current cycle (or cycle
      0), a neighbour whose state for the previous cycle is not known yet, or fewer than
      eight neighbours. */
  lemma StepWaits(s: State, ids: seq<string>)
    ensures GetInt(s, CurrentCycleKey) in {None, Some(0)} ==> Step(s, ids) == Done(s, Waiting)
    ensures (GetInt(s, CurrentCycleKey).Some? &&
             exists i :: 0 <= i < |ids| && GetCycle(s, NeighbourKey(ids[i], GetInt(s, CurrentCycleKey).value - 1)).None?)
            ==> Step(s, ids) == Done(s, Waiting)
    ensures |ids| < 8 ==> Step(s, ids) == Done(s, Waiting)
  {
  }

  /** An advance from cycle c claims the empty slot `val_c` with the new state, moves the
      counter to c + 1, announces that state, and removes nothing but neighbour entries
      of cycle c - 1: every other key of the state is kept with its value. */
  lemma StepAdvances(s: State, ids: seq<string>)
    requires Step(s, ids).Next?
    ensures var r := Step(s, ids);
            var c := GetInt(s, CurrentCycleKey).value;
            && GetInt(s, CurrentCycleKey).Some? && c != 0
            && |ids| >= 8
            && ValKey(c) !in s
            && r.announced.cycle == c
            && GetCycle(r.state, ValKey(c)) == Some(r.announced)
            && GetInt(r.state, CurrentCycleKey) == Some(c + 1)
            && GetBool(s, StoppedKey) == Some(false)
            && (forall k :: k in s && k != CurrentCycleKey ==>
                  (k in r.state <==> k !in NeighbourKeys(ids, c - 1))
                  && (k in r.state ==> r.state[k] == s[k]))
  {
    var p := PlanStep(s, ids);
    assert p.Write? && Step(s, ids) == Commit(s, ids, p.c, p.next);
    CommitAdvances(s, ids, p.c, p.next);
  }

  /** The writing half of an advance from cycle c, on its own. */
  lemma CommitAdvances(s: State, ids: seq<string>, c: int, next: CycleState)
    requires Commit(s, ids, c, next).Next?
    ensures var r := Commit(s, ids, c, next);
            && ValKey(c) !in s
            && GetCycle(r.state, ValKey(c)) == Some(next)
            && GetInt(r.state, CurrentCycleKey) == Some(c + 1)
            && GetBool(s, StoppedKey) == Some(false)
            && (forall k :: k in s && k != CurrentCycleKey ==>
                  (k in r.state <==> k !in NeighbourKeys(ids, c - 1))
                  && (k in r.state ==> r.state[k] == s[k]))
  {
    forall i | 0 <= i < |ids|
      ensures NeighbourKey(ids[i], c - 1) != CurrentCycleKey && NeighbourKey(ids[i], c - 1) != ValKey(c)
    {
      NeighbourKeyNotCounter(ids[i], c - 1);
      NeighbourKeyNotOwn(ids[i], c);
    }
  }

  /** An advance from cycle c announces the state of cycle c and moves the counter on. */
  lemma StepCounts(s: State, ids: seq<string>)
    requires Step(s, ids).Next?
    ensures GetInt(s, CurrentCycleKey).Some?
    ensures Step(s, ids).announced.cycle == GetInt(s, CurrentCycleKey).value
    ensures GetInt(Step(s, ids).state, CurrentCycleKey) == Some(GetInt(s, CurrentCycleKey).value + 1)
  {
    var p := PlanStep(s, ids);
    assert p.Write? && Step(s, ids) == Commit(s, ids, p.c, p.next);
  }

  /** A step ends by waiting, losing the race, stopping or failing, never for want of fuel;
      waiting and losing leave the state as it was. */
  lemma StepEnds(s: State, ids: seq<string>)
    ensures Step(s, ids).Done? ==> Step(s, ids).end != OutOfFuel
    ensures Step(s, ids).Done? && Step(s, ids).end in {Waiting, Lost} ==> Step(s, ids).state == s
  {
    var p := PlanStep(s, ids);
    if p.Write? {
      assert Step(s, ids) == Commit(s, ids, p.c, p.next);
    }
  }

  /** The compare-and-swap makes `val_c` write-once: when it is already there the step
      loses the race and changes nothing. */
  lemma StepLosesToEarlierWrite(s: State, ids: seq<string>)
    requires GetInt(s, CurrentCycleKey).Some?
    requires ValKey(GetInt(s, CurrentCycleKey).value) in s
    ensures Step(s, ids).Done?
    ensures Step(s, ids).end in {Waiting, Lost, Faulted} && Step(s, ids).state == s
  {
  }

  /** A step that stops after advancing keeps the neighbours' entries and announces
      nothing; one that finds no Stopped flag fails after writing. */
  lemma StepHalts(s: State, ids: seq<string>)
    requires Step(s, ids).Done? && Step(s, ids).state != s
    ensures var r := Step(s, ids);
            var c := GetInt(s, CurrentCycleKey).value;
            && GetInt(s, CurrentCycleKey).Some?
            && ValKey(c) !in s
            && r.state == s[ValKey(c) := r.state[ValKey(c)]][CurrentCycleKey := IntValue(c + 1)]
            && (r.end == Halted <==> GetBool(s, StoppedKey) == Some(true))
            && (r.end == Faulted <==> GetBool(s, StoppedKey).None?)
  {
    var p := PlanStep(s, ids);
    assert p.Write? && Step(s, ids) == Commit(s, ids, p.c, p.next);
    CommitHalts(s, ids, p.c, p.next);
  }

  /** The writing half when it stops after winning the compare-and-swap. */
  lemma CommitHalts(s: State, ids: seq<string>, c: int, next: CycleState)
    requires Commit(s, ids, c, next).Done? && Commit(s, ids, c, next).end != Lost
    ensures var r := Commit(s, ids, c, next);
            && ValKey(c) !in s
            && r.state == s[ValKey(c) := CycleValue(next)][CurrentCycleKey := IntValue(c + 1)]
            && (r.end == Halted <==> GetBool(s, StoppedKey) == Some(true))
            && (r.end == Faulted <==> GetBool(s, StoppedKey).None?)
  {
    var s1 := s[ValKey(c) := CycleValue(next)][CurrentCycleKey := IntValue(c + 1)];
    assert ValKey(c) != StoppedKey && CurrentCycleKey != StoppedKey;
    assert GetBool(s1, StoppedKey) == GetBool(s, StoppedKey);
  }

  /** The state announced by an advance follows Conway's rule from the neighbours'
      states of the previous cycle and the cell's own. */
  lemma StepFollowsLife(s: State, ids: seq<string>)
    requires Step(s, ids).Next?
    ensures var c := GetInt(s, CurrentCycleKey).value;
            var states := NeighbourStates(s, ids, c - 1);
            var n := AliveCount(states.value);
            && states.Some?
            && (GetCycle(s, ValKey(c - 1)).Some? ==>
                  Step(s, ids).announced.alive == LivesNext(GetCycle(s, ValKey(c - 1)).value.alive, n))
            && (GetCycle(s, ValKey(c - 1)).None? ==> n != 2 && Step(s, ids).announced.alive == (n == 3))
  {
  }
}
