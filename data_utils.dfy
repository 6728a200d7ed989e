/**
 * Sample preparation: the rows of the review table whose 'Review Text' is
 * present and has at least MIN_WORDS whitespace-separated words, either all of
 * them in table order or SAMPLE_SIZE of them drawn by the generator seeded with
 * RANDOM_STATE, re-indexed 0..k-1.
 */
module DataUtils {
  import opened Wrappers

  const SAMPLE_SIZE: nat := 50
  const RANDOM_STATE: nat := 42
  /** Shortest review kept, in words. */
  const MIN_WORDS: nat := 10

  /** One row of the raw table: the 'Review Text' cell (None when it is missing) and the other columns, carried through unchanged. */
  datatype RawRow<R> = RawRow(text: Option<string>, rest: R)

  /** A row whose text is present, with the 'text_length' column computed from it. */
  datatype CountedRow<R> = CountedRow(text: string, textLength: nat, rest: R)

  /** A row of the returned sample; `index` is the label reset_index gives it. */
  datatype SampleRow<R> = SampleRow(index: nat, text: string, textLength: nat, rest: R)

  /** An abstract generator standing in for the one behind sample(random_state = seed): its output at a given step when seeded with a given seed. */
  type Rng = (nat, nat) -> nat

  function Min(a: nat, b: nat): nat {
    if a < b then a else b
  }

  // ---------------------------------------------------------------------------
  // Word count: len(str(x).split())
  // ---------------------------------------------------------------------------

  /** The characters Python's str.split() with no separator treats as whitespace. */
  predicate IsSpace(c: char) {
    || c == ' ' || c == '\t' || c == '\n' || c == '\r' || c == '\U{0b}' || c == '\U{0c}'
    || ('\U{1c}' <= c <= '\U{1f}') || c == '\U{85}' || c == '\U{a0}' || c == '\U{1680}'
    || ('\U{2000}' <= c <= '\U{200a}') || c == '\U{2028}' || c == '\U{2029}'
    || c == '\U{202f}' || c == '\U{205f}' || c == '\U{3000}'
  }

  predicate AllSpace(s: string) {
    forall i | 0 <= i < |s| :: IsSpace(s[i])
  }

  predicate NoSpace(s: string) {
    forall i | 0 <= i < |s| :: !IsSpace(s[i])
  }

  /** Length of the run of non-whitespace characters that begins s. */
  function RunLength(s: string): (n: nat)
    ensures n <= |s|
    ensures NoSpace(s[..n])
    ensures n == |s| || IsSpace(s[n])
  {
    if s == [] || IsSpace(s[0]) then 0
    else
      var m := RunLength(s[1..]);
      assert s[..m + 1] == [s[0]] + s[1..][..m];
      m + 1
  }

  /** The words str.split() returns: the maximal runs of non-whitespace characters, in order. */
  function Split(s: string): (words: seq<string>)
    ensures forall w | w in words :: w != [] && NoSpace(w)
    decreases |s|
  {
    if s == [] then []
    else if IsSpace(s[0]) then Split(s[1..])
    else
      var n := RunLength(s);
      [s[..n]] + Split(s[n..])
  }

  /** len(str(x).split()): one per place where a word begins; 0 exactly for empty or blank text. */
  function WordCount(s: string): (n: nat)
    ensures n == WordStarts(s, true)
    ensures n == 0 <==> AllSpace(s)
  {
    WordCountIsWordStarts(s);
    NoWordsIffBlank(s);
    |Split(s)|
  }

  /** The non-whitespace characters of s, in order. */
  function NonSpace(s: string): string {
    if s == [] then [] else (if IsSpace(s[0]) then [] else [s[0]]) + NonSpace(s[1..])
  }

  function Concat(words: seq<string>): string {
    if words == [] then [] else words[0] + Concat(words[1..])
  }

  /**
   * Number of places in s where a word begins: a non-whitespace character that
   * is first in the text or follows whitespace. `afterSpace` says whether the
   * text before s ends in whitespace (or there is none).
   */
  function WordStarts(s: string, afterSpace: bool): nat {
    if s == [] then 0
    else (if afterSpace && !IsSpace(s[0]) then 1 else 0) + WordStarts(s[1..], IsSpace(s[0]))
  }

  lemma {:induction false} NonSpaceAppend(a: string, b: string)
    ensures NonSpace(a + b) == NonSpace(a) + NonSpace(b)
  {
    if a == [] {
      assert a + b == b;
    } else {
      assert (a + b)[1..] == a[1..] + b;
      NonSpaceAppend(a[1..], b);
    }
  }

  lemma {:induction false} NonSpaceOfWord(w: string)
    requires NoSpace(w)
    ensures NonSpace(w) == w
  {
    if w != [] {
      NonSpaceOfWord(w[1..]);
    }
  }

  /** The words hold every non-whitespace character of the text, in order, and nothing else. */
  lemma {:induction false} SplitKeepsEveryNonSpace(s: string)
    ensures Concat(Split(s)) == NonSpace(s)
    decreases |s|
  {
    if s == [] {
    } else if IsSpace(s[0]) {
      SplitKeepsEveryNonSpace(s[1..]);
    } else {
      var n := RunLength(s);
      SplitKeepsEveryNonSpace(s[n..]);
      assert s == s[..n] + s[n..];
      NonSpaceAppend(s[..n], s[n..]);
      NonSpaceOfWord(s[..n]);
    }
  }

  /** Inside a word no new word begins. */
  lemma {:induction false} WordStartsSkipRun(s: string, n: nat)
    requires n <= |s| && NoSpace(s[..n])
    ensures WordStarts(s, false) == WordStarts(s[n..], false)
  {
    if n > 0 {
      assert s[..n][0] == s[0];
      assert s[1..][..n - 1] == s[..n][1..];
      WordStartsSkipRun(s[1..], n - 1);
      assert s[1..][n - 1..] == s[n..];
    }
  }

  /** The number of words is the number of places where a word begins, that is, the number of maximal non-whitespace runs. */
  lemma {:induction false} WordCountIsWordStarts(s: string)
    ensures |Split(s)| == WordStarts(s, true)
    decreases |s|
  {
    if s == [] {
    } else if IsSpace(s[0]) {
      WordCountIsWordStarts(s[1..]);
    } else {
      var n := RunLength(s);
      WordCountIsWordStarts(s[n..]);
      assert s[1..][..n - 1] == s[..n][1..];
      WordStartsSkipRun(s[1..], n - 1);
      assert s[1..][n - 1..] == s[n..];
    }
  }

  /** Empty or whitespace-only text, and only such text, has no words. */
  lemma {:induction false} NoWordsIffBlank(s: string)
    ensures |Split(s)| == 0 <==> AllSpace(s)
    decreases |s|
  {
    if s != [] {
      if IsSpace(s[0]) {
        NoWordsIffBlank(s[1..]);
        assert AllSpace(s) <==> AllSpace(s[1..]) by {
          if AllSpace(s[1..]) {
            forall i | 0 <= i < |s| ensures IsSpace(s[i]) {
              if i > 0 { assert s[i] == s[1..][i - 1]; }
            }
          }
        }
      }
    }
  }

  // ---------------------------------------------------------------------------
  // Filters: dropna(subset=['Review Text']), 'text_length', text_length >= 10
  // ---------------------------------------------------------------------------

  /** dropna on 'Review Text', then the 'text_length' column. */
  function Clean<R(==)>(rows: seq<RawRow<R>>): (counted: seq<CountedRow<R>>)
    ensures |counted| <= |rows|
    ensures forall c | c in counted :: RawRow(Some(c.text), c.rest) in rows && c.textLength == WordCount(c.text)
    ensures forall x | x in rows && x.text.Some? :: CountedRow(x.text.value, WordCount(x.text.value), x.rest) in counted
  {
    if rows == [] then []
    else
      var head := rows[0];
      (if head.text.Some? then [CountedRow(head.text.value, WordCount(head.text.value), head.rest)] else [])
      + Clean(rows[1..])
  }

  /** The rows whose 'text_length' is at least MIN_WORDS. */
  function KeepLong<R(==)>(rows: seq<CountedRow<R>>): (kept: seq<CountedRow<R>>)
    ensures |kept| <= |rows|
    ensures forall c | c in kept :: c in rows && c.textLength >= MIN_WORDS
    ensures forall c | c in rows && c.textLength >= MIN_WORDS :: c in kept
  {
    if rows == [] then []
    else (if rows[0].textLength >= MIN_WORDS then [rows[0]] else []) + KeepLong(rows[1..])
  }

  /** df_final: the rows that survive both filters, in table order. */
  function Survivors<R(==)>(rows: seq<RawRow<R>>): (survivors: seq<CountedRow<R>>)
    ensures |survivors| <= |rows|
    ensures forall c | c in survivors ::
              && RawRow(Some(c.text), c.rest) in rows
              && c.textLength == WordCount(c.text) >= MIN_WORDS
    ensures forall x | x in rows && x.text.Some? && WordCount(x.text.value) >= MIN_WORDS ::
              CountedRow(x.text.value, WordCount(x.text.value), x.rest) in survivors
  {
    KeepLong(Clean(rows))
  }

  /** The filters act row by row: they keep table order and never merge or reorder rows. */
  lemma SurvivorsAppend<R>(a: seq<RawRow<R>>, b: seq<RawRow<R>>)
    ensures Survivors(a + b) == Survivors(a) + Survivors(b)
  {
    CleanAppend(a, b);
    KeepLongAppend(Clean(a), Clean(b));
  }

  lemma {:induction false} CleanAppend<R>(a: seq<RawRow<R>>, b: seq<RawRow<R>>)
    ensures Clean(a + b) == Clean(a) + Clean(b)
  {
    if a == [] {
      assert a + b == b;
    } else {
      assert (a + b)[1..] == a[1..] + b;
      CleanAppend(a[1..], b);
    }
  }

  lemma {:induction false} KeepLongAppend<R>(a: seq<CountedRow<R>>, b: seq<CountedRow<R>>)
    ensures KeepLong(a + b) == KeepLong(a) + KeepLong(b)
  {
    if a == [] {
      assert a + b == b;
    } else {
      assert (a + b)[1..] == a[1..] + b;
      KeepLongAppend(a[1..], b);
    }
  }

  /** A single row survives exactly when its text is present and has at least MIN_WORDS words. */
  lemma SurvivorsOfOneRow<R>(x: RawRow<R>)
    ensures Survivors([x]) == if x.text.Some? && WordCount(x.text.value) >= MIN_WORDS
                              then [CountedRow(x.text.value, WordCount(x.text.value), x.rest)] else []
  {
    assert [x][1..] == [];
  }

  // ---------------------------------------------------------------------------
  // sample(n=SAMPLE_SIZE, random_state=RANDOM_STATE)
  // ---------------------------------------------------------------------------

  predicate Distinct(s: seq<nat>) {
    forall i, j | 0 <= i < j < |s| :: s[i] != s[j]
  }

  function Range(n: nat): (r: seq<nat>)
    ensures |r| == n && forall i | 0 <= i < n :: r[i] == i
  {
    seq(n, i => i)
  }

  lemma RemoveAtKeepsDistinct(pool: seq<nat>, k: nat)
    requires Distinct(pool) && k < |pool|
    ensures Distinct(pool[..k] + pool[k + 1..])
    ensures pool[k] !in pool[..k] + pool[k + 1..]
  {
    var rest := pool[..k] + pool[k + 1..];
    forall i | 0 <= i < |rest| ensures rest[i] != pool[k] && rest[i] == pool[if i < k then i else i + 1] {
    }
  }

  /**
   * Selection without replacement: each step takes the element of `pool` at the
   * position the seeded generator names and removes it from the pool.
   */
  function Draw(pool: seq<nat>, n: nat, rng: Rng, step: nat): (picked: seq<nat>)
    requires n <= |pool|
    ensures |picked| == n
    ensures forall p | p in picked :: p in pool
    ensures Distinct(pool) ==> Distinct(picked)
    decreases n
  {
    if n == 0 then []
    else
      var k := rng(RANDOM_STATE, step) % |pool|;
      var rest := pool[..k] + pool[k + 1..];
      var tail := Draw(rest, n - 1, rng, step + 1);
      assert Distinct(pool) ==> Distinct([pool[k]] + tail) by {
        if Distinct(pool) {
          RemoveAtKeepsDistinct(pool, k);
        }
      }
      [pool[k]] + tail
  }

  /** The draw reads the generator only at steps step..step+n-1. */
  lemma {:induction false} DrawReadsOnlyItsSteps(pool: seq<nat>, n: nat, rng1: Rng, rng2: Rng, step: nat)
    requires n <= |pool|
    requires forall j | step <= j < step + n :: rng1(RANDOM_STATE, j) == rng2(RANDOM_STATE, j)
    ensures Draw(pool, n, rng1, step) == Draw(pool, n, rng2, step)
    decreases n
  {
    if n > 0 {
      var k := rng1(RANDOM_STATE, step) % |pool|;
      DrawReadsOnlyItsSteps(pool[..k] + pool[k + 1..], n - 1, rng1, rng2, step + 1);
    }
  }

  /** Positions of df_final that make up the sample, in the order they are taken. */
  function SamplePositions(count: nat, rng: Rng): (p: seq<nat>)
    ensures |p| == Min(SAMPLE_SIZE, count)
    ensures Distinct(p)
    ensures forall j | 0 <= j < |p| :: p[j] < count
    ensures count < SAMPLE_SIZE ==> forall j | 0 <= j < |p| :: p[j] == j
  {
    var all := Range(count);
    assert Distinct(all);
    assert forall x | x in all :: x < count;
    if count < SAMPLE_SIZE then all
    else
      var picked := Draw(all, SAMPLE_SIZE, rng, 0);
      assert forall j | 0 <= j < |picked| :: picked[j] in picked;
      picked
  }

  /** Row j of the sample is row p[j] of df_final, relabelled j. */
  predicate DrawnFrom<R(==)>(sample: seq<SampleRow<R>>, survivors: seq<CountedRow<R>>, p: seq<nat>) {
    && |p| == |sample|
    && Distinct(p)
    && forall j | 0 <= j < |sample| ::
         && p[j] < |survivors|
         && sample[j] == SampleRow(j, survivors[p[j]].text, survivors[p[j]].textLength, survivors[p[j]].rest)
  }

  /** load_and_preprocess_data, with the file contents (None: the file does not exist) and the generator as inputs. */
  function LoadAndPreprocess<R(==)>(source: Option<seq<RawRow<R>>>, rng: Rng): (sample: seq<SampleRow<R>>)
    ensures source.None? ==> sample == []
    ensures source.Some? ==> |sample| == Min(SAMPLE_SIZE, |Survivors(source.value)|)
    ensures source.Some? ==> DrawnFrom(sample, Survivors(source.value), SamplePositions(|Survivors(source.value)|, rng))
    ensures forall j | 0 <= j < |sample| :: sample[j].index == j
    ensures forall j | 0 <= j < |sample| ::
              && source.Some?
              && RawRow(Some(sample[j].text), sample[j].rest) in source.value
              && sample[j].textLength == WordCount(sample[j].text) >= MIN_WORDS
  {
    match source
    case None => []
    case Some(rows) =>
      var survivors := Survivors(rows);
      var p := SamplePositions(|survivors|, rng);
      var sample := seq(|p|, j requires 0 <= j < |p| =>
                          SampleRow(j, survivors[p[j]].text, survivors[p[j]].textLength, survivors[p[j]].rest));
      assert forall j | 0 <= j < |p| :: survivors[p[j]] in survivors;
      sample
  }

  /** With fewer than SAMPLE_SIZE survivors the sample is all of them, in table order. */
  lemma SmallPoolKeepsAllInOrder<R>(rows: seq<RawRow<R>>, rng: Rng)
    requires |Survivors(rows)| < SAMPLE_SIZE
    ensures var sample := LoadAndPreprocess(Some(rows), rng);
            && |sample| == |Survivors(rows)|
            && forall j | 0 <= j < |sample| ::
                 sample[j] == SampleRow(j, Survivors(rows)[j].text, Survivors(rows)[j].textLength, Survivors(rows)[j].rest)
  {
  }

  /** The sample depends on the input and on the first SAMPLE_SIZE outputs of the abstract generator seeded with RANDOM_STATE, and on nothing else. */
  lemma SampleDependsOnlyOnSeededDraws<R>(rows: seq<RawRow<R>>, rng1: Rng, rng2: Rng)
    requires forall j | 0 <= j < SAMPLE_SIZE :: rng1(RANDOM_STATE, j) == rng2(RANDOM_STATE, j)
    ensures LoadAndPreprocess(Some(rows), rng1) == LoadAndPreprocess(Some(rows), rng2)
  {
    var count := |Survivors(rows)|;
    if count >= SAMPLE_SIZE {
      DrawReadsOnlyItsSteps(Range(count), SAMPLE_SIZE, rng1, rng2, 0);
    }
  }
}
