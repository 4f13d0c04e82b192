/**
 Group-by keys and the order pandas sorts them in. A key is one column value (an integer year or
 decade, or a string such as a category) or a pair of them, as produced by grouping on two columns.
 */
module Keys {

  datatype Key = IntKey(i: int) | StrKey(s: string) | PairKey(fst: Key, snd: Key)

  /** Python's `<` on `str`: lexicographic by code point, a proper prefix sorting first. */
  predicate StrLess(a: string, b: string)
    decreases |a|
  {
    if |a| == 0 then |b| > 0
    else if |b| == 0 then false
    else a[0] < b[0] || (a[0] == b[0] && StrLess(a[1..], b[1..]))
  }

  /** Rank of a key's shape; only used to make the order total, since one view never mixes shapes. */
  function Shape(k: Key): nat
  {
    match k
    case IntKey(_) => 0
    case StrKey(_) => 1
    case PairKey(_, _) => 2
  }

  /** The order of sorted group keys: numeric on integers, `StrLess` on strings, lexicographic on pairs. */
  predicate KeyLess(a: Key, b: Key)
  {
    if a.IntKey? && b.IntKey? then a.i < b.i
    else if a.StrKey? && b.StrKey? then StrLess(a.s, b.s)
    else if a.PairKey? && b.PairKey? then KeyLess(a.fst, b.fst) || (a.fst == b.fst && KeyLess(a.snd, b.snd))
    else Shape(a) < Shape(b)
  }

  lemma {:induction false} StrLessIrreflexive(a: string)
    ensures !StrLess(a, a)
    decreases |a|
  {
    if |a| > 0 {
      StrLessIrreflexive(a[1..]);
    }
  }

  lemma {:induction false} StrLessTransitive(a: string, b: string, c: string)
    requires StrLess(a, b) && StrLess(b, c)
    ensures StrLess(a, c)
    decreases |a|
  {
    if |a| > 0 && a[0] == b[0] && b[0] == c[0] {
      StrLessTransitive(a[1..], b[1..], c[1..]);
    }
  }

  lemma {:induction false} StrLessTotal(a: string, b: string)
    ensures a == b || StrLess(a, b) || StrLess(b, a)
    decreases |a|
  {
    if |a| > 0 && |b| > 0 && a[0] == b[0] {
      StrLessTotal(a[1..], b[1..]);
      if a[1..] == b[1..] {
        assert a == [a[0]] + a[1..] && b == [b[0]] + b[1..];
      }
    }
  }

  /** `KeyLess` never relates a key to itself. */
  lemma {:induction false} KeyLessIrreflexive(a: Key)
    ensures !KeyLess(a, a)
  {
    match a
    case IntKey(_) =>
    case StrKey(s) => StrLessIrreflexive(s);
    case PairKey(x, y) => KeyLessIrreflexive(x); KeyLessIrreflexive(y);
  }

  /** `KeyLess` is transitive. */
  lemma {:induction false} KeyLessTransitive(a: Key, b: Key, c: Key)
    requires KeyLess(a, b) && KeyLess(b, c)
    ensures KeyLess(a, c)
  {
    if a.StrKey? && b.StrKey? && c.StrKey? {
      StrLessTransitive(a.s, b.s, c.s);
    } else if a.PairKey? && b.PairKey? && c.PairKey? {
      if KeyLess(a.fst, b.fst) && KeyLess(b.fst, c.fst) {
        KeyLessTransitive(a.fst, b.fst, c.fst);
      } else if a.fst == b.fst && b.fst == c.fst {
        KeyLessTransitive(a.snd, b.snd, c.snd);
      }
    }
  }

  /** Any two distinct keys are ordered one way or the other. */
  lemma {:induction false} KeyLessTotal(a: Key, b: Key)
    ensures a == b || KeyLess(a, b) || KeyLess(b, a)
  {
    if a.StrKey? && b.StrKey? {
      StrLessTotal(a.s, b.s);
    } else if a.PairKey? && b.PairKey? {
      KeyLessTotal(a.fst, b.fst);
      KeyLessTotal(a.snd, b.snd);
    }
  }
}
