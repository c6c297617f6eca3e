/**
 * The run-time selector: the compiled emoji table is indexed by a 64-bit hash of a value.
 * The hasher is XxHash64 with seed 0; its digest is a parameter of the model, a function
 * of every byte written into the hasher so far. A value is represented by the bytes its
 * `Hash` implementation writes, and hashing it again writes the same bytes again.
 */
module Selector {
  import opened Results
  import Catalog
  import Policy

  newtype Byte = b: int | 0 <= b < 256

  const U64Modulus: int := 0x1_0000_0000_0000_0000

  /** A `u64`. */
  type U64 = x: int | 0 <= x < U64Modulus

  /** `XxHash::with_seed(0)`'s `finish`, as a function of all bytes written so far. */
  type Digest = seq<Byte> -> U64

  datatype SelectError =
    | EmptyCatalog  // `hash % EMOJIS.len()` divides by zero
    | InvalidRange  // `range.end - range.start` underflows, or `hash % 0` divides by zero

  /** A hasher's state: the bytes written into it. */
  datatype Hasher = Hasher(written: seq<Byte>)

  /** `hasher()`: a fresh hasher. */
  function NewHasher(): Hasher {
    Hasher([])
  }

  /** `hashable.hash(&mut hasher)`: the value's bytes are appended. */
  function Write(h: Hasher, bytes: seq<Byte>): Hasher {
    Hasher(h.written + bytes)
  }

  /** `hasher.finish()`: reads the digest without changing the state. */
  function Finish(digest: Digest, h: Hasher): U64 {
    digest(h.written)
  }

  /** The bytes of a value written `k` times in a row. */
  function Repeat(bytes: seq<Byte>, k: nat): (r: seq<Byte>)
    ensures |r| == k * |bytes|
  {
    if k == 0 then [] else Repeat(bytes, k - 1) + bytes
  }

  /** `(hash % len as u64) as usize`: a position in a table of `n` entries. */
  function Index(hash: U64, n: nat): (i: nat)
    requires n > 0
    ensures i < n
  {
    hash % n
  }

  /** `one`: the entry the digest of the value's bytes picks. */
  function One(catalog: seq<string>, digest: Digest, input: seq<Byte>): (r: Result<string, SelectError>)
    ensures r.Err? <==> |catalog| == 0
    ensures r.Err? ==> r.error == EmptyCatalog
    ensures r.Ok? ==> r.value in catalog
  {
    if |catalog| == 0 then Err(EmptyCatalog)
    else Ok(catalog[Index(Finish(digest, Write(NewHasher(), input)), |catalog|)])
  }

  /**
   * The loop of `fixed` from some point on: `left` more rounds, each writing the value
   * into the same hasher once more and pushing the entry its digest picks.
   */
  function FixedFrom(catalog: seq<string>, digest: Digest, input: seq<Byte>, h: Hasher, left: nat, out: seq<string>)
    : (r: Result<seq<string>, SelectError>)
    ensures r.Err? <==> left > 0 && |catalog| == 0
    ensures r.Ok? ==> |r.value| == |out| + left
    decreases left
  {
    if left == 0 then Ok(out)
    else if |catalog| == 0 then Err(EmptyCatalog)
    else
      var next := Write(h, input);
      FixedFrom(catalog, digest, input, next, left - 1, out + [catalog[Index(Finish(digest, next), |catalog|)]])
  }

  /** `fixed`: `count` entries from one hasher the value is written into again before each pick. */
  function Fixed(catalog: seq<string>, digest: Digest, input: seq<Byte>, count: nat): (r: Result<seq<string>, SelectError>)
    ensures r.Err? <==> count > 0 && |catalog| == 0
    ensures r.Ok? ==> |r.value| == count
  {
    FixedFrom(catalog, digest, input, NewHasher(), count, [])
  }

  /** Entry `i` of `fixed`'s output, in closed form: the digest of the value written `i + 1` times. */
  function Pick(catalog: seq<string>, digest: Digest, input: seq<Byte>, i: nat): (g: string)
    requires |catalog| > 0
    ensures g in catalog
  {
    catalog[Index(digest(Repeat(input, i + 1)), |catalog|)]
  }

  /** The first `count` picks, in order. */
  function Picks(catalog: seq<string>, digest: Digest, input: seq<Byte>, count: nat): (r: seq<string>)
    requires |catalog| > 0
    ensures |r| == count
  {
    if count == 0 then [] else Picks(catalog, digest, input, count - 1) + [Pick(catalog, digest, input, count - 1)]
  }

  lemma {:induction false} PicksAt(catalog: seq<string>, digest: Digest, input: seq<Byte>, count: nat, i: nat)
    requires |catalog| > 0 && i < count
    ensures Picks(catalog, digest, input, count)[i] == Pick(catalog, digest, input, i)
    decreases count
  {
    if i < count - 1 {
      PicksAt(catalog, digest, input, count - 1, i);
    }
  }

  /** Having run `k` rounds, the hasher holds the value `k` times and the output holds the first `k` picks. */
  lemma {:induction false} FixedFromIsPicks(catalog: seq<string>, digest: Digest, input: seq<Byte>, h: Hasher, k: nat, left: nat)
    requires |catalog| > 0
    requires h.written == Repeat(input, k)
    ensures FixedFrom(catalog, digest, input, h, left, Picks(catalog, digest, input, k)) == Ok(Picks(catalog, digest, input, k + left))
    decreases left
  {
    if left > 0 {
      var next := Write(h, input);
      assert next.written == Repeat(input, k + 1);
      FixedFromIsPicks(catalog, digest, input, next, k + 1, left - 1);
    }
  }

  /**
   * `fixed` fails only when it has to pick from an empty table; otherwise entry `i` is the
   * entry the digest of the value written `i + 1` times picks.
   */
  lemma FixedIsPicks(catalog: seq<string>, digest: Digest, input: seq<Byte>, count: nat)
    requires |catalog| > 0
    ensures Fixed(catalog, digest, input, count) == Ok(Picks(catalog, digest, input, count))
  {
    FixedFromIsPicks(catalog, digest, input, NewHasher(), 0, count);
  }

  /** Every entry `fixed` produces is in the table. */
  lemma FixedEntries(catalog: seq<string>, digest: Digest, input: seq<Byte>, count: nat, i: nat)
    requires Fixed(catalog, digest, input, count).Ok? && i < count
    ensures |catalog| > 0
    ensures Fixed(catalog, digest, input, count).value[i] == Pick(catalog, digest, input, i)
    ensures Fixed(catalog, digest, input, count).value[i] in catalog
  {
    FixedIsPicks(catalog, digest, input, count);
    PicksAt(catalog, digest, input, count, i);
  }

  /** A shorter `fixed` string is a prefix of a longer one for the same value. */
  lemma {:induction false} PicksPrefix(catalog: seq<string>, digest: Digest, input: seq<Byte>, k: nat, m: nat)
    requires |catalog| > 0 && k <= m
    ensures Picks(catalog, digest, input, k) == Picks(catalog, digest, input, m)[..k]
    decreases m
  {
    if k < m {
      PicksPrefix(catalog, digest, input, k, m - 1);
      var longer := Picks(catalog, digest, input, m);
      assert longer[..m - 1] == Picks(catalog, digest, input, m - 1);
    }
  }

  lemma FixedPrefix(catalog: seq<string>, digest: Digest, input: seq<Byte>, k: nat, m: nat)
    requires |catalog| > 0 && k <= m
    ensures Fixed(catalog, digest, input, k).value == Fixed(catalog, digest, input, m).value[..k]
  {
    FixedIsPicks(catalog, digest, input, k);
    FixedIsPicks(catalog, digest, input, m);
    PicksPrefix(catalog, digest, input, k, m);
  }

  /** The first entry of `fixed` is what `one` picks for the same value. */
  lemma FixedStartsWithOne(catalog: seq<string>, digest: Digest, input: seq<Byte>, count: nat)
    requires count > 0 && |catalog| > 0
    ensures Fixed(catalog, digest, input, count).value[0] == One(catalog, digest, input).value
  {
    FixedEntries(catalog, digest, input, count, 0);
    assert Repeat(input, 1) == input;
  }

  /** `fixed` as the source writes it: a loop over one hasher and a growing output. */
  method FixedLoop(catalog: seq<string>, digest: Digest, input: seq<Byte>, count: nat) returns (r: Result<seq<string>, SelectError>)
    ensures r.Err? <==> count > 0 && |catalog| == 0
    ensures r.Ok? ==> |r.value| == count
    ensures r.Ok? ==> forall i :: 0 <= i < count ==> r.value[i] == Pick(catalog, digest, input, i)
  {
    var hasher := NewHasher();
    var output: seq<string> := [];
    var k := 0;
    while k < count
      invariant 0 <= k <= count
      invariant k > 0 ==> |catalog| > 0
      invariant hasher.written == Repeat(input, k)
      invariant |output| == k
      invariant forall i :: 0 <= i < k ==> output[i] == Pick(catalog, digest, input, i)
    {
      hasher := Write(hasher, input);
      if |catalog| == 0 {
        return Err(EmptyCatalog);
      }
      output := output + [catalog[Index(Finish(digest, hasher), |catalog|)]];
      k := k + 1;
    }
    return Ok(output);
  }

  /** `variable`'s length: the value's digest reduced into `start..end`. */
  function VariableCount(hash: U64, start: nat, end: nat): (count: nat)
    requires start < end
    ensures start <= count < end
  {
    hash % (end - start) + start
  }

  /** `variable`: `fixed` with a length chosen by the value's own digest. */
  function Variable(catalog: seq<string>, digest: Digest, input: seq<Byte>, start: nat, end: nat)
    : (r: Result<seq<string>, SelectError>)
    ensures r == Err(InvalidRange) <==> end <= start
    ensures r.Ok? ==> start <= |r.value| < end
  {
    if end <= start then Err(InvalidRange)
    else Fixed(catalog, digest, input, VariableCount(Finish(digest, Write(NewHasher(), input)), start, end))
  }

  /**
   * `variable` fails on an empty table exactly when the chosen length is not zero, and
   * otherwise produces a prefix of the longest string the range allows.
   */
  lemma VariableIsFixedPrefix(catalog: seq<string>, digest: Digest, input: seq<Byte>, start: nat, end: nat)
    requires start < end
    ensures Variable(catalog, digest, input, start, end) == Err(EmptyCatalog)
        <==> |catalog| == 0 && VariableCount(digest(input), start, end) > 0
    ensures |catalog| > 0 ==>
      var r := Variable(catalog, digest, input, start, end);
      r.Ok? && r.value == Fixed(catalog, digest, input, end - 1).value[..|r.value|]
  {
    assert Write(NewHasher(), input).written == input;
    if |catalog| > 0 {
      FixedPrefix(catalog, digest, input, VariableCount(digest(input), start, end), end - 1);
    }
  }

  /** `iter`: the table itself, in order. */
  function Iter(catalog: seq<string>): seq<string> {
    catalog
  }

  /** Whatever `one`, `fixed` or `variable` produce, `iter` lists. */
  lemma SelectionsAreListed(catalog: seq<string>, digest: Digest, input: seq<Byte>, count: nat, start: nat, end: nat)
    ensures One(catalog, digest, input).Ok? ==> One(catalog, digest, input).value in Iter(catalog)
    ensures Fixed(catalog, digest, input, count).Ok? ==>
      forall g :: g in Fixed(catalog, digest, input, count).value ==> g in Iter(catalog)
    ensures Variable(catalog, digest, input, start, end).Ok? ==>
      forall g :: g in Variable(catalog, digest, input, start, end).value ==> g in Iter(catalog)
  {
    forall g | Fixed(catalog, digest, input, count).Ok? && g in Fixed(catalog, digest, input, count).value
      ensures g in catalog
    {
      var i :| 0 <= i < count && Fixed(catalog, digest, input, count).value[i] == g;
      FixedEntries(catalog, digest, input, count, i);
    }
    if start < end {
      var n := VariableCount(digest(input), start, end);
      assert Write(NewHasher(), input).written == input;
      forall g | Fixed(catalog, digest, input, n).Ok? && g in Fixed(catalog, digest, input, n).value
        ensures g in catalog
      {
        var i :| 0 <= i < n && Fixed(catalog, digest, input, n).value[i] == g;
        FixedEntries(catalog, digest, input, n, i);
      }
    }
  }

  /** `test_fixed_length`: ten picks from a non-empty table. */
  lemma FixedTen(catalog: seq<string>, digest: Digest, input: seq<Byte>)
    requires |catalog| > 0
    ensures Fixed(catalog, digest, input, 10).Ok?
    ensures |Fixed(catalog, digest, input, 10).value| == 10
  {
  }

  /** `test_variable_length`: the range `1..10` gives between one and nine picks. */
  lemma VariableOneToTen(catalog: seq<string>, digest: Digest, input: seq<Byte>)
    requires |catalog| > 0
    ensures Variable(catalog, digest, input, 1, 10).Ok?
    ensures 1 <= |Variable(catalog, digest, input, 1, 10).value| <= 9
  {
  }

  /**
   * The table is the builder's `filter` output, so whatever `one` picks is the glyph of a
   * catalog record that passes the build's feature policy.
   */
  lemma CompiledPickPasses(c: Catalog.Collection, env: set<string>, digest: Digest, input: seq<Byte>)
    requires Policy.Filter(c, env).Ok?
    requires One(Policy.Filter(c, env).value, digest, input).Ok?
    ensures Policy.PolicyFromEnv(env).Ok?
    ensures exists e :: (e in c.emojis && Policy.Passes(Policy.PolicyFromEnv(env).value, env, e)
      && e.glyph == One(Policy.Filter(c, env).value, digest, input).value)
  {
    var p := Policy.PolicyFromEnv(env).value;
    var selected := Policy.Select(p, env, c.emojis);
    var glyphs := Policy.Filter(c, env).value;
    var i :| 0 <= i < |glyphs| && glyphs[i] == One(glyphs, digest, input).value;
    Policy.SelectMembers(p, env, c.emojis, selected[i]);
  }
}
