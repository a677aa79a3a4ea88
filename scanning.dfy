/**
 * What both tokenizers do with their patterns: `re.finditer` (leftmost,
 * non-overlapping matches, the search resuming where a match ends) and the
 * removal of repeated `(valor, posicion)` keys that keeps the first
 * occurrence of each.
 */
module Scanning {
  import opened Wrappers
  import opened Patterns

  /** `match.start()` and `match.end()`. */
  datatype Span = Span(start: nat, end: nat)

  /**
   * The outcome of a match attempt at every position `p..|t|` of `t`: where
   * the match starting there ends, or `None` when the pattern fails there.
   */
  function MatchesFrom(pat: Pattern, t: string, p: nat): (ms: seq<Option<nat>>)
    requires p <= |t| + 1
    ensures |ms| == |t| + 1 - p
    decreases |t| + 1 - p
  {
    if p == |t| + 1 then [] else [MatchAt(pat, t, p)] + MatchesFrom(pat, t, p + 1)
  }

  lemma {:induction false} MatchesFromAt(pat: Pattern, t: string, p: nat, q: nat)
    requires p <= q <= |t|
    ensures MatchesFrom(pat, t, p)[q - p] == MatchAt(pat, t, q)
    decreases q - p
  {
    if p < q { MatchesFromAt(pat, t, p + 1, q); }
  }

  /** A table of match outcomes: none at the end of the text, and every match ends after it starts, within the table. */
  predicate Proper(ms: seq<Option<nat>>) {
    |ms| > 0 && ms[|ms| - 1].None? && forall p :: 0 <= p < |ms| && ms[p].Some? ==> p < ms[p].value < |ms|
  }

  /** The match outcomes at every position of `t`. */
  function MatchTable(pat: Pattern, t: string): (ms: seq<Option<nat>>)
    ensures |ms| == |t| + 1
  {
    MatchesFrom(pat, t, 0)
  }

  /** The table holds `MatchAt` at every position, and every match ends after it starts, inside the text. */
  lemma MatchTableFacts(pat: Pattern, t: string)
    ensures forall p :: 0 <= p <= |t| ==> MatchTable(pat, t)[p] == MatchAt(pat, t, p)
    ensures Proper(MatchTable(pat, t))
  {
    forall p | 0 <= p <= |t| ensures MatchTable(pat, t)[p] == MatchAt(pat, t, p) {
      MatchesFromAt(pat, t, 0, p);
    }
  }

  /** The scan of `re.finditer`, from position `pos`, over a table of match outcomes. */
  function Scan(ms: seq<Option<nat>>, pos: nat): (spans: seq<Span>)
    requires Proper(ms) && pos < |ms|
    ensures forall k :: 0 <= k < |spans| ==>
      pos <= spans[k].start < spans[k].end < |ms| && ms[spans[k].start] == Some(spans[k].end)
    ensures forall i, j :: 0 <= i < j < |spans| ==> spans[i].end <= spans[j].start
    decreases |ms| - pos
  {
    if pos == |ms| - 1 then []
    else if ms[pos].Some? then [Span(pos, ms[pos].value)] + Scan(ms, ms[pos].value)
    else Scan(ms, pos + 1)
  }

  /** Positions where nothing matches are passed over. */
  lemma {:induction false} ScanSkip(ms: seq<Option<nat>>, pos: nat, q: nat)
    requires Proper(ms) && pos <= q < |ms|
    requires forall i :: pos <= i < q ==> ms[i].None?
    ensures Scan(ms, pos) == Scan(ms, q)
    decreases q - pos
  {
    if pos < q { ScanSkip(ms, pos + 1, q); }
  }

  /** `re.finditer(pattern, t)`: the spans of the leftmost non-overlapping matches. */
  function FindAll(pat: Pattern, t: string): (spans: seq<Span>)
    ensures forall k :: 0 <= k < |spans| ==> spans[k].start < spans[k].end <= |t|
    ensures forall i, j :: 0 <= i < j < |spans| ==> spans[i].end <= spans[j].start
  {
    MatchTableFacts(pat, t);
    Scan(MatchTable(pat, t), 0)
  }

  /** Every reported span is the match the pattern makes at its start. */
  lemma FindAllMatches(pat: Pattern, t: string)
    ensures forall k :: 0 <= k < |FindAll(pat, t)| ==>
      MatchAt(pat, t, FindAll(pat, t)[k].start) == Some(FindAll(pat, t)[k].end)
  {
    MatchTableFacts(pat, t);
  }

  ghost predicate Covered(spans: seq<Span>, q: int) {
    exists k :: 0 <= k < |spans| && spans[k].start <= q < spans[k].end
  }

  lemma {:induction false} ScanLeftmost(ms: seq<Option<nat>>, pos: nat, q: nat)
    requires Proper(ms) && pos <= q < |ms| && !Covered(Scan(ms, pos), q)
    ensures ms[q].None?
    decreases |ms| - pos
  {
    var spans := Scan(ms, pos);
    if pos < |ms| - 1 {
      if ms[pos].Some? {
        var e := ms[pos].value;
        var rest := Scan(ms, e);
        assert spans == [Span(pos, e)] + rest;
        assert spans[0] == Span(pos, e);
        forall k | 0 <= k < |rest| ensures spans[k + 1] == rest[k] { }
        ScanLeftmost(ms, e, q);
      } else if q > pos {
        ScanLeftmost(ms, pos + 1, q);
      }
    }
  }

  /** The scan misses no match: the pattern matches at no position that no reported match covers. */
  lemma FindAllLeftmost(pat: Pattern, t: string, q: nat)
    requires q <= |t| && !Covered(FindAll(pat, t), q)
    ensures MatchAt(pat, t, q).None?
  {
    MatchTableFacts(pat, t);
    ScanLeftmost(MatchTable(pat, t), 0, q);
  }

  // ---------------------------------------------------------------------
  // Removing repeated keys

  /** The keys of the elements of `s`. */
  function KeySet<T, K>(s: seq<T>, key: T -> K): set<K> {
    set i | 0 <= i < |s| :: key(s[i])
  }

  lemma KeySetSnoc<T, K>(s: seq<T>, x: T, key: T -> K)
    ensures KeySet(s + [x], key) == KeySet(s, key) + {key(x)}
  {
    var l := KeySet(s + [x], key);
    var r := KeySet(s, key) + {key(x)};
    forall k | k in l ensures k in r {
      var i :| 0 <= i < |s| + 1 && key((s + [x])[i]) == k;
      if i < |s| { assert (s + [x])[i] == s[i]; }
    }
    forall k | k in r ensures k in l {
      if k == key(x) {
        assert (s + [x])[|s|] == x;
      } else {
        var i :| 0 <= i < |s| && key(s[i]) == k;
        assert (s + [x])[i] == s[i];
      }
    }
  }

  /**
   * The loop `for num in numeros: if clave not in vistos: vistos.add(clave);
   * unicos.append(num)`, read as a function of the list it has gone through.
   */
  function Dedup<T, K(==)>(s: seq<T>, key: T -> K): (d: seq<T>)
    ensures |d| <= |s|
  {
    if s == [] then []
    else
      var d := Dedup(s[..|s| - 1], key);
      if key(s[|s| - 1]) in KeySet(d, key) then d else d + [s[|s| - 1]]
  }

  /** Every key of the input survives, and no other key appears. */
  lemma {:induction false} DedupKeys<T, K>(s: seq<T>, key: T -> K)
    ensures KeySet(Dedup(s, key), key) == KeySet(s, key)
  {
    if s != [] {
      var init := s[..|s| - 1];
      var x := s[|s| - 1];
      DedupKeys(init, key);
      assert s == init + [x];
      KeySetSnoc(init, x, key);
      if key(x) !in KeySet(Dedup(init, key), key) {
        KeySetSnoc(Dedup(init, key), x, key);
      }
    }
  }

  /** No two elements of the output share a key. */
  lemma {:induction false} DedupDistinct<T, K>(s: seq<T>, key: T -> K)
    ensures forall i, j :: 0 <= i < j < |Dedup(s, key)| ==> key(Dedup(s, key)[i]) != key(Dedup(s, key)[j])
  {
    if s != [] {
      var init := s[..|s| - 1];
      var x := s[|s| - 1];
      DedupDistinct(init, key);
      var d := Dedup(init, key);
      if key(x) !in KeySet(d, key) {
        forall i | 0 <= i < |d| ensures key((d + [x])[i]) != key(x) {
          assert (d + [x])[i] == d[i];
        }
      }
    }
  }

  /** Every element of the output is an element of the input. */
  lemma {:induction false} DedupMembers<T, K>(s: seq<T>, key: T -> K)
    ensures forall x :: x in Dedup(s, key) ==> x in s
  {
    if s != [] {
      DedupMembers(s[..|s| - 1], key);
      assert s == s[..|s| - 1] + [s[|s| - 1]];
    }
  }

  /**
   * The loop itself: a `vistos` set of keys met so far and the list of
   * elements whose key was new when they were met.
   */
  method RemoveRepeats<T, K(==)>(s: seq<T>, key: T -> K) returns (unique: seq<T>)
    ensures unique == Dedup(s, key)
    ensures KeySet(unique, key) == KeySet(s, key)
    ensures forall i, j :: 0 <= i < j < |unique| ==> key(unique[i]) != key(unique[j])
  {
    unique := [];
    var seen: set<K> := {};
    for i := 0 to |s|
      invariant unique == Dedup(s[..i], key)
      invariant seen == KeySet(unique, key)
    {
      assert s[..i + 1][..i] == s[..i];
      var k := key(s[i]);
      if k !in seen {
        KeySetSnoc(unique, s[i], key);
        seen := seen + {k};
        unique := unique + [s[i]];
      }
    }
    assert s[..|s|] == s;
    DedupKeys(s, key);
    DedupDistinct(s, key);
  }

  /** A relation that holds between every earlier and later input element also holds in the output. */
  lemma {:induction false} DedupKeepsOrder<T, K>(s: seq<T>, key: T -> K, before: (T, T) -> bool)
    requires forall i, j :: 0 <= i < j < |s| ==> before(s[i], s[j])
    ensures forall i, j :: 0 <= i < j < |Dedup(s, key)| ==> before(Dedup(s, key)[i], Dedup(s, key)[j])
  {
    if s != [] {
      var init := s[..|s| - 1];
      var x := s[|s| - 1];
      DedupKeepsOrder(init, key, before);
      var d := Dedup(init, key);
      if key(x) !in KeySet(d, key) {
        DedupMembers(init, key);
        forall i, j | 0 <= i < j < |d| + 1 ensures before((d + [x])[i], (d + [x])[j]) {
          if j == |d| {
            assert (d + [x])[i] == d[i] && d[i] in init;
            var m :| 0 <= m < |init| && init[m] == d[i];
            assert s[m] == d[i] && s[|s| - 1] == x;
          } else {
            assert (d + [x])[i] == d[i] && (d + [x])[j] == d[j];
          }
        }
      }
    }
  }

  /** `s[i]` is the first element of `s` with its key. */
  ghost predicate IsFirst<T, K>(s: seq<T>, key: T -> K, i: int)
    requires 0 <= i < |s|
  {
    forall j :: 0 <= j < i ==> key(s[j]) != key(s[i])
  }

  /** A reference definition: the elements at first occurrences of their keys, in input order. */
  ghost function FirstOccurrences<T, K>(s: seq<T>, key: T -> K): seq<T> {
    if s == [] then []
    else FirstOccurrences(s[..|s| - 1], key) + (if IsFirst(s, key, |s| - 1) then [s[|s| - 1]] else [])
  }

  /** The loop keeps exactly the first occurrence of every key. */
  lemma {:induction false} DedupIsFirstOccurrences<T, K>(s: seq<T>, key: T -> K)
    ensures Dedup(s, key) == FirstOccurrences(s, key)
  {
    if s != [] {
      var init := s[..|s| - 1];
      var x := s[|s| - 1];
      DedupIsFirstOccurrences(init, key);
      DedupKeys(init, key);
      if IsFirst(s, key, |s| - 1) {
        forall j | 0 <= j < |init| ensures key(init[j]) != key(x) {
          assert init[j] == s[j];
        }
      } else {
        var j :| 0 <= j < |s| - 1 && key(s[j]) == key(s[|s| - 1]);
        assert init[j] == s[j];
        assert key(x) in KeySet(init, key);
      }
    }
  }

  /** Every element of the output is at the first occurrence of its key in the input. */
  lemma {:induction false} DedupFirst<T, K>(s: seq<T>, key: T -> K, x: T)
    requires x in Dedup(s, key)
    ensures exists i :: 0 <= i < |s| && s[i] == x && IsFirst(s, key, i)
  {
    DedupIsFirstOccurrences(s, key);
    FirstOccurrencesFirst(s, key, x);
  }

  lemma {:induction false} FirstOccurrencesFirst<T, K>(s: seq<T>, key: T -> K, x: T)
    requires x in FirstOccurrences(s, key)
    ensures exists i :: 0 <= i < |s| && s[i] == x && IsFirst(s, key, i)
  {
    var init := s[..|s| - 1];
    if x in FirstOccurrences(init, key) {
      FirstOccurrencesFirst(init, key, x);
      var i :| 0 <= i < |init| && init[i] == x && IsFirst(init, key, i);
      assert s[i] == x;
      forall j | 0 <= j < i ensures key(s[j]) != key(s[i]) {
        assert s[j] == init[j];
      }
    } else {
      assert s[|s| - 1] == x && IsFirst(s, key, |s| - 1);
    }
  }

  /** An input whose keys are already distinct comes out as it went in. */
  lemma {:induction false} DedupOfDistinct<T, K>(s: seq<T>, key: T -> K)
    requires forall i, j :: 0 <= i < j < |s| ==> key(s[i]) != key(s[j])
    ensures Dedup(s, key) == s
  {
    if s != [] {
      var init := s[..|s| - 1];
      DedupOfDistinct(init, key);
      forall j | 0 <= j < |init| ensures key(init[j]) != key(s[|s| - 1]) {
        assert init[j] == s[j];
      }
      assert s == init + [s[|s| - 1]];
    }
  }

  /** Removing repeats a second time changes nothing. */
  lemma DedupIdempotent<T, K>(s: seq<T>, key: T -> K)
    ensures Dedup(Dedup(s, key), key) == Dedup(s, key)
  {
    DedupDistinct(s, key);
    DedupOfDistinct(Dedup(s, key), key);
  }

  /** The first element always survives. */
  lemma {:induction false} DedupHead<T, K>(s: seq<T>, key: T -> K)
    requires s != []
    ensures Dedup(s, key) != [] && Dedup(s, key)[0] == s[0]
  {
    DedupIsFirstOccurrences(s, key);
    FirstOccurrencesHead(s, key);
  }

  lemma {:induction false} FirstOccurrencesHead<T, K>(s: seq<T>, key: T -> K)
    requires s != []
    ensures FirstOccurrences(s, key) != [] && FirstOccurrences(s, key)[0] == s[0]
  {
    if |s| > 1 {
      var init := s[..|s| - 1];
      FirstOccurrencesHead(init, key);
    }
  }
}
