/** Small value types and sequence/string helpers shared by the backend model. */
module Common {

  /** A value that may be absent (an undefined request field, a document findOne did not find). */
  datatype Option<+T> = None | Some(value: T)

  /** Identifier of a stored user document (a MongoDB ObjectId, opaque here). */
  type UserId = nat

  /** Identifier of a stored journal-entry document. */
  type EntryId = nat

  /** Index of the first element of `s` that `p` accepts: the natural-order `findOne`. */
  function FirstIndex<T>(s: seq<T>, p: T -> bool): (r: Option<nat>)
    ensures r.Some? ==> r.value < |s| && p(s[r.value])
    ensures r.Some? ==> forall i :: 0 <= i < r.value ==> !p(s[i])
    ensures r.None? <==> forall i :: 0 <= i < |s| ==> !p(s[i])
  {
    if s == [] then None
    else if p(s[0]) then Some(0)
    else match FirstIndex(s[1..], p)
      case None => None
      case Some(k) => Some(k + 1)
  }

  /** The elements of `s` that `keep` accepts, in their original order: the natural-order `find`. */
  function Select<T(!new)>(s: seq<T>, keep: T -> bool): (r: seq<T>)
    ensures forall i :: 0 <= i < |r| ==> keep(r[i])
  {
    if s == [] then []
    else
      var tail := Select(s[1..], keep);
      if keep(s[0]) then [s[0]] + tail else tail
  }

  /** The selection holds every accepted element exactly as often as `s` does, and nothing else. */
  lemma {:induction false} SelectCount<T(!new)>(s: seq<T>, keep: T -> bool)
    ensures forall x :: multiset(Select(s, keep))[x] == if keep(x) then multiset(s)[x] else 0
  {
    if s != [] {
      SelectCount(s[1..], keep);
      assert s == [s[0]] + s[1..];
    }
  }

  lemma {:induction false} SelectAppend<T(!new)>(s: seq<T>, t: seq<T>, keep: T -> bool)
    ensures Select(s + t, keep) == Select(s, keep) + Select(t, keep)
  {
    if s == [] {
      assert s + t == t;
    } else {
      assert (s + t)[1..] == s[1..] + t;
      SelectAppend(s[1..], t, keep);
    }
  }

  /** Replacing or removing an element that `keep` rejects leaves the selection unchanged. */
  lemma SelectSkipsRejected<T(!new)>(s: seq<T>, k: nat, keep: T -> bool)
    requires k < |s| && !keep(s[k])
    ensures Select(s[..k] + s[k+1..], keep) == Select(s, keep)
  {
    var a, b := s[..k], s[k+1..];
    calc {
      Select(s, keep);
      { assert s == (a + [s[k]]) + b; }
      Select((a + [s[k]]) + b, keep);
      { SelectAppend(a + [s[k]], b, keep); }
      Select(a + [s[k]], keep) + Select(b, keep);
      { SelectAppendRejected(a, s[k], keep); }
      Select(a, keep) + Select(b, keep);
      { SelectAppend(a, b, keep); }
      Select(a + b, keep);
    }
  }

  lemma SelectUpdateRejected<T(!new)>(s: seq<T>, k: nat, x: T, keep: T -> bool)
    requires k < |s| && !keep(s[k]) && !keep(x)
    ensures Select(s[k := x], keep) == Select(s, keep)
  {
    var s' := s[k := x];
    assert s'[..k] == s[..k] && s'[k+1..] == s[k+1..];
    SelectSkipsRejected(s, k, keep);
    SelectSkipsRejected(s', k, keep);
  }

  lemma SelectAppendRejected<T(!new)>(s: seq<T>, x: T, keep: T -> bool)
    requires !keep(x)
    ensures Select(s + [x], keep) == Select(s, keep)
  {
    SelectAppend(s, [x], keep);
    assert [x][1..] == [];
  }

  /** Lower-case mapping of one character, ASCII letters only. */
  function LowerChar(c: char): char
  {
    if 'A' <= c <= 'Z' then (c as int + 32) as char else c
  }

  function Lower(s: string): string
  {
    seq(|s|, i requires 0 <= i < |s| => LowerChar(s[i]))
  }

  /** `q` occurs in `t` starting at position `i`. */
  predicate OccursAt(t: string, q: string, i: int)
  {
    0 <= i <= |t| - |q| && t[i..i + |q|] == q
  }

  /** Whether `q` occurs in `t` as a contiguous substring. */
  function Contains(t: string, q: string): (b: bool)
    ensures b <==> exists i :: OccursAt(t, q, i)
    decreases |t|
  {
    if |q| > |t| then false
    else if t[..|q|] == q then assert OccursAt(t, q, 0); true
    else
      var b := Contains(t[1..], q);
      assert b ==> exists i :: OccursAt(t, q, i) by {
        if b {
          var j :| OccursAt(t[1..], q, j);
          assert t[j + 1..j + 1 + |q|] == t[1..][j..j + |q|];
          assert OccursAt(t, q, j + 1);
        }
      }
      assert (exists i :: OccursAt(t, q, i)) ==> b by {
        if exists i :: OccursAt(t, q, i) {
          var i :| OccursAt(t, q, i);
          assert i != 0;
          assert t[1..][i - 1..i - 1 + |q|] == t[i..i + |q|];
          assert OccursAt(t[1..], q, i - 1);
        }
      }
      b
  }

  /** Case-insensitive substring test (ASCII case folding). */
  predicate ContainsIgnoringCase(t: string, q: string)
  {
    Contains(Lower(t), Lower(q))
  }

  predicate IsDigit(c: char) { '0' <= c <= '9' }

  /** The decimal numeral of `n`, as JavaScript writes a safe integer. */
  function DecimalString(n: nat): (s: string)
    ensures |s| > 0 && forall i :: 0 <= i < |s| ==> IsDigit(s[i])
    ensures |s| == 1 <==> n < 10
    ensures n >= 10 ==> s[0] != '0'
  {
    if n < 10 then [('0' as int + n) as char]
    else DecimalString(n / 10) + [('0' as int + n % 10) as char]
  }

  /** Value of a string of decimal digits. */
  function DecimalValue(s: string): nat
    requires forall i :: 0 <= i < |s| ==> IsDigit(s[i])
  {
    if s == [] then 0
    else
      assert IsDigit(s[|s| - 1]);
      DecimalValue(s[..|s| - 1]) * 10 + (s[|s| - 1] as int - '0' as int)
  }

  /** `s` is a string of decimal digits whose value is `n`. */
  predicate NumeralOf(s: string, n: nat)
  {
    (forall i :: 0 <= i < |s| ==> IsDigit(s[i])) && DecimalValue(s) == n
  }

  lemma {:induction false} DecimalRoundTrip(n: nat)
    ensures DecimalValue(DecimalString(n)) == n
  {
    var s := DecimalString(n);
    if n >= 10 {
      DecimalRoundTrip(n / 10);
      assert s[..|s| - 1] == DecimalString(n / 10);
    }
  }

  /** Distinct numbers have distinct numerals. */
  lemma DecimalInjective(a: nat, b: nat)
    requires DecimalString(a) == DecimalString(b)
    ensures a == b
  {
    DecimalRoundTrip(a);
    DecimalRoundTrip(b);
  }
}
