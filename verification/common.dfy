/** Shared vocabulary of the model: optional values, the service layer's error
    kinds, and the handful of JavaScript string, array and number operations
    the services rely on, each stated with its meaning. */
module Common {

  /** Record identifiers are opaque strings generated by the store. */
  type Id = string

  datatype Option<T> = None | Some(value: T)

  /** How a call ends when it does not succeed. The HTTP exception kinds carry
      the message the service passes them; anything that is not an HTTP
      exception (a plain `Error`, a store failure) reaches the client as an
      internal server error. */
  datatype Error =
    | NotFound(message: string)
    | Forbidden(message: string)
    | Conflict(message: string)
    | BadRequest(message: string)
    | PayloadTooLarge
    | Internal(message: string)
      /** The store refused an update or delete of a row that does not exist. */
    | RecordMissing
      /** The store refused a write that breaks a unique index. */
    | UniqueViolation
      /** The store refused a row pointing at a record that does not exist. */
    | MissingReference

  datatype Result<T> = Ok(value: T) | Err(error: Error)

  function Min(a: int, b: int): int { if a <= b then a else b }
  function Max(a: int, b: int): int { if a <= b then b else a }

  // ---------------------------------------------------------------------------
  // Searching a sequence
  // ---------------------------------------------------------------------------

  /** Index of the first element satisfying `p` (JavaScript `findIndex`, or a
      store's `findFirst`/`findUnique` over a table kept in row order). */
  function FirstIndex<T>(xs: seq<T>, p: T -> bool): (r: Option<nat>)
    ensures r.Some? ==> r.value < |xs| && p(xs[r.value])
    ensures r.Some? ==> forall j :: 0 <= j < r.value ==> !p(xs[j])
    ensures r.None? <==> forall j :: 0 <= j < |xs| ==> !p(xs[j])
  {
    if |xs| == 0 then None
    else if p(xs[0]) then Some(0)
    else match FirstIndex(xs[1..], p)
      case None => None
      case Some(i) => Some(i + 1)
  }

  /** The elements satisfying `p`, in their original order (JavaScript
      `filter`, or a store's `findMany` with a `where` clause). */
  function Filter<T>(xs: seq<T>, p: T -> bool): (r: seq<T>)
    ensures forall k :: 0 <= k < |r| ==> r[k] in xs && p(r[k])
    ensures forall k :: 0 <= k < |xs| && p(xs[k]) ==> xs[k] in r
    ensures |r| <= |xs|
  {
    if |xs| == 0 then []
    else if p(xs[0]) then [xs[0]] + Filter(xs[1..], p)
    else Filter(xs[1..], p)
  }

  /** `pos` lists increasing positions of `xs` holding the elements of `ys`. */
  ghost predicate PositionsIn<T>(ys: seq<T>, xs: seq<T>, pos: seq<nat>) {
    && |pos| == |ys|
    && (forall k :: 0 <= k < |pos| ==> pos[k] < |xs| && ys[k] == xs[pos[k]])
    && (forall a, b :: 0 <= a < b < |pos| ==> pos[a] < pos[b])
  }

  /** Filtering keeps order: the selected elements sit at increasing
      positions of the input. */
  lemma {:induction false} FilterIsSubsequence<T>(xs: seq<T>, p: T -> bool) returns (pos: seq<nat>)
    ensures PositionsIn(Filter(xs, p), xs, pos)
  {
    if |xs| == 0 {
      pos := [];
    } else {
      var tail := Filter(xs[1..], p);
      var rest := FilterIsSubsequence(xs[1..], p);
      var shifted := ShiftPositions(tail, xs, rest);
      if p(xs[0]) {
        assert Filter(xs, p) == [xs[0]] + tail;
        pos := ConsPositions(tail, xs, shifted);
      } else {
        assert Filter(xs, p) == tail;
        pos := shifted;
      }
    }
  }

  /** The first element of `xs` put in front of elements found past it. */
  lemma ConsPositions<T>(ys: seq<T>, xs: seq<T>, shifted: seq<nat>) returns (pos: seq<nat>)
    requires |xs| > 0 && PositionsIn(ys, xs, shifted)
    requires forall k :: 0 <= k < |shifted| ==> shifted[k] >= 1
    ensures PositionsIn([xs[0]] + ys, xs, pos)
  {
    pos := [0] + shifted;
    var r := [xs[0]] + ys;
    forall k | 0 <= k < |pos| ensures pos[k] < |xs| && r[k] == xs[pos[k]] {
      if k > 0 {
        assert pos[k] == shifted[k - 1] && r[k] == ys[k - 1];
      }
    }
    forall a, b | 0 <= a < b < |pos| ensures pos[a] < pos[b] {
      assert pos[b] == shifted[b - 1];
      if a > 0 {
        assert pos[a] == shifted[a - 1];
      }
    }
  }

  /** Positions in the tail of `xs`, moved one up, are positions in `xs`,
      all of them past the first. */
  lemma ShiftPositions<T>(ys: seq<T>, xs: seq<T>, rest: seq<nat>) returns (shifted: seq<nat>)
    requires |xs| > 0 && PositionsIn(ys, xs[1..], rest)
    ensures PositionsIn(ys, xs, shifted)
    ensures forall k :: 0 <= k < |shifted| ==> shifted[k] >= 1
  {
    shifted := seq(|rest|, k requires 0 <= k < |rest| => rest[k] + 1);
    forall k | 0 <= k < |shifted| ensures shifted[k] < |xs| && ys[k] == xs[shifted[k]] {
      assert ys[k] == xs[1..][rest[k]];
    }
  }

  /** Two conditions that agree on every element select the same elements. */
  lemma {:induction false} FilterAgree<T>(xs: seq<T>, p: T -> bool, q: T -> bool)
    requires forall k :: 0 <= k < |xs| ==> p(xs[k]) == q(xs[k])
    ensures Filter(xs, p) == Filter(xs, q)
  {
    if |xs| > 0 {
      assert forall k :: 0 <= k < |xs[1..]| ==> xs[1..][k] == xs[k + 1];
      FilterAgree(xs[1..], p, q);
    }
  }

  /** Filtering what was appended is appending what passes the filter. */
  lemma {:induction false} FilterAppend<T>(xs: seq<T>, x: T, p: T -> bool)
    ensures Filter(xs + [x], p) == Filter(xs, p) + (if p(x) then [x] else [])
  {
    if |xs| == 0 {
      assert xs + [x] == [x];
      assert [x][1..] == [];
    } else {
      assert (xs + [x])[0] == xs[0];
      assert (xs + [x])[1..] == xs[1..] + [x];
      FilterAppend(xs[1..], x, p);
    }
  }

  /** The sequence without the element at `i`. */
  function RemoveAt<T>(xs: seq<T>, i: nat): (r: seq<T>)
    requires i < |xs|
    ensures |r| == |xs| - 1
    ensures forall k :: 0 <= k < i ==> r[k] == xs[k]
    ensures forall k :: i <= k < |r| ==> r[k] == xs[k + 1]
  {
    xs[..i] + xs[i + 1..]
  }

  // ---------------------------------------------------------------------------
  // Strings
  // ---------------------------------------------------------------------------

  predicate StartsWith(s: string, prefix: string) {
    |prefix| <= |s| && s[..|prefix|] == prefix
  }

  predicate EndsWith(s: string, suffix: string) {
    |suffix| <= |s| && s[|s| - |suffix|..] == suffix
  }

  /** `sub` sits in `s` starting at position `i`. */
  predicate OccursAt(s: string, sub: string, i: int) {
    0 <= i && i + |sub| <= |s| && s[i..i + |sub|] == sub
  }

  /** Substring test, scanning start positions left to right. */
  predicate Contains(s: string, sub: string)
    decreases |s|
  {
    StartsWith(s, sub) || (|s| > 0 && Contains(s[1..], sub))
  }

  /** The scan finds `sub` exactly when it occurs somewhere in `s`. */
  lemma {:induction false} ContainsIffOccurs(s: string, sub: string)
    ensures Contains(s, sub) <==> exists i :: OccursAt(s, sub, i)
    decreases |s|
  {
    if StartsWith(s, sub) {
      assert OccursAt(s, sub, 0);
    } else if |s| == 0 {
      assert |sub| > 0;
    } else {
      ContainsIffOccurs(s[1..], sub);
      if Contains(s[1..], sub) {
        var i :| OccursAt(s[1..], sub, i);
        assert s[1..][i..i + |sub|] == s[i + 1..i + 1 + |sub|];
        assert OccursAt(s, sub, i + 1);
      }
      forall i | OccursAt(s, sub, i)
        ensures OccursAt(s[1..], sub, i - 1)
      {
        assert i != 0;
        assert s[1..][i - 1..i - 1 + |sub|] == s[i..i + |sub|];
      }
    }
  }

  function LowerChar(c: char): char {
    if 'A' <= c <= 'Z' then (c as int + 32) as char else c
  }

  /** ASCII lower-casing, the model's case folding for case-insensitive matches. */
  function Lower(s: string): (r: string)
    ensures |r| == |s|
    ensures forall i :: 0 <= i < |s| ==> r[i] == LowerChar(s[i])
  {
    seq(|s|, i requires 0 <= i < |s| => LowerChar(s[i]))
  }

  /** Case-insensitive substring test. */
  predicate ContainsIgnoringCase(s: string, sub: string) {
    Contains(Lower(s), Lower(sub))
  }

  /** The first position at or after `k` where `sub` occurs. */
  function IndexOfFrom(s: string, sub: string, k: nat): (r: Option<nat>)
    requires k <= |s|
    ensures r.Some? ==> k <= r.value && OccursAt(s, sub, r.value)
    ensures r.Some? ==> forall j :: k <= j < r.value ==> !OccursAt(s, sub, j)
    ensures r.None? ==> forall j :: k <= j ==> !OccursAt(s, sub, j)
    decreases |s| - k
  {
    if k + |sub| > |s| then None
    else if s[k..k + |sub|] == sub then Some(k)
    else if k == |s| then None
    else IndexOfFrom(s, sub, k + 1)
  }

  /** JavaScript `s.split(sep)` for a non-empty separator: the pieces
      between occurrences of `sep`, scanning left to right. */
  function Split(s: string, sep: string): (r: seq<string>)
    requires |sep| > 0
    ensures |r| > 0
    decreases |s|
  {
    match IndexOfFrom(s, sep, 0)
    case None => [s]
    case Some(i) => [s[..i]] + Split(s[i + |sep|..], sep)
  }

  /** JavaScript `Array.prototype.join`: the parts in order, with `sep`
      between neighbours; the empty list joins to "". */
  function Join(parts: seq<string>, sep: string): string
  {
    if |parts| == 0 then ""
    else if |parts| == 1 then parts[0]
    else parts[0] + sep + Join(parts[1..], sep)
  }

  function TotalLength(parts: seq<string>): nat
  {
    if |parts| == 0 then 0 else |parts[0]| + TotalLength(parts[1..])
  }

  /** The joined string holds every character of every part plus one
      separator between each pair of neighbours. */
  lemma {:induction false} JoinLength(parts: seq<string>, sep: string)
    requires |parts| > 0
    ensures |Join(parts, sep)| == TotalLength(parts) + (|parts| - 1) * |sep|
  {
    if |parts| > 1 {
      JoinLength(parts[1..], sep);
    }
  }

  /** Joining one more part extends the previous join by the separator and
      that part: the parts appear in their given order. */
  lemma {:induction false} JoinSnoc(parts: seq<string>, last: string, sep: string)
    requires |parts| > 0
    ensures Join(parts + [last], sep) == Join(parts, sep) + sep + last
  {
    if |parts| == 1 {
      assert parts + [last] == [parts[0], last];
    } else {
      assert (parts + [last])[1..] == parts[1..] + [last];
      JoinSnoc(parts[1..], last, sep);
    }
  }

  /** Splitting at ", " undoes joining with ", ", provided there is at least
      one part and no part contains ", " itself. */
  lemma {:induction false} SplitJoin(parts: seq<string>)
    requires |parts| > 0
    requires forall k, i :: 0 <= k < |parts| ==> !OccursAt(parts[k], ", ", i)
    ensures Split(Join(parts, ", "), ", ") == parts
  {
    var sep := ", ";
    if |parts| == 1 {
      assert IndexOfFrom(parts[0], sep, 0).None?;
    } else {
      var head := parts[0];
      var rest := Join(parts[1..], sep);
      var s := head + sep + rest;
      assert Join(parts, sep) == s;
      assert OccursAt(s, sep, |head|) by {
        assert s[|head|..|head| + 2] == sep;
      }
      forall j | 0 <= j < |head| ensures !OccursAt(s, sep, j) {
        if j + 2 <= |head| {
          assert s[j..j + 2] == head[j..j + 2];
          assert !OccursAt(head, sep, j);
        } else {
          assert s[j + 1] == ',';
        }
      }
      assert IndexOfFrom(s, sep, 0) == Some(|head|);
      assert s[..|head|] == head;
      assert s[|head| + 2..] == rest;
      forall k, i | 0 <= k < |parts[1..]| ensures !OccursAt(parts[1..][k], sep, i) {
        assert parts[1..][k] == parts[k + 1];
      }
      SplitJoin(parts[1..]);
      assert parts == [head] + parts[1..];
    }
  }

  // ---------------------------------------------------------------------------
  // Arrays and numbers
  // ---------------------------------------------------------------------------

  /** JavaScript `xs.slice(0, end)`: a negative `end` counts back from the
      end of the array, an end beyond the length is clipped to the length. */
  function JsTake<T>(xs: seq<T>, end: int): (r: seq<T>)
    ensures r <= xs
    ensures 0 <= end ==> |r| == Min(end, |xs|)
    ensures end < 0 ==> |r| == Max(|xs| + end, 0)
  {
    if end < 0 then xs[..Max(|xs| + end, 0)] else xs[..Min(end, |xs|)]
  }

  /** `Math.ceil(a / b)` for a positive divisor: the least integer whose
      multiple of `b` reaches `a`. */
  function CeilDiv(a: int, b: int): (r: int)
    requires b > 0
    ensures (r - 1) * b < a <= r * b
  {
    -((-a) / b)
  }

  /** `Math.floor(a / b)` for a positive divisor: the greatest integer whose
      multiple of `b` does not exceed `a`. */
  function FloorDiv(a: int, b: int): (r: int)
    requires b > 0
    ensures r * b <= a < (r + 1) * b
  {
    a / b
  }
}
