/**
 The BookBot text statistics: the number of words of a text, a case-insensitive
 tally of its characters, and the report of its letters ranked by frequency.
 */
module Stats {
  import opened PyStr

  // ---------------------------------------------------------------------------
  // count_words
  // ---------------------------------------------------------------------------

  /** `count_words`: the number of tokens `text.split()` yields. */
  function CountWords(text: string): (n: nat)
    ensures n == 0 <==> AllSpace(text)
  {
    SplitEmpty(text);
    |Split(text)|
  }

  /** A single whitespace character separates the words on its two sides. */
  lemma CountWordsAtSpace(a: string, c: char, b: string)
    requires IsSpace(c)
    ensures CountWords(a + [c] + b) == CountWords(a) + CountWords(b)
  {
    SplitAtSpace(a, c, b);
  }

  /** A non-empty run with no whitespace, punctuation included, is one word. */
  lemma CountWordsOfWord(w: string)
    requires |w| > 0 && NoSpace(w)
    ensures CountWords(w) == 1
  {
    SplitWord(w);
  }

  /** Whitespace around a text adds no words, however long the run. */
  lemma CountWordsPadded(pre: string, s: string, post: string)
    requires AllSpace(pre) && AllSpace(post)
    ensures CountWords(pre + s + post) == CountWords(s)
  {
    assert CountWords("") == 0;
    if post != [] {
      CountWordsRun(s, post, "");
      assert s + post + "" == s + post;
    } else {
      assert s + post == s;
    }
    if pre != [] {
      CountWordsRun("", pre, s + post);
      assert "" + pre + (s + post) == pre + s + post;
    } else {
      assert pre + s + post == s + post;
    }
  }

  /** A leading word followed by whitespace counts once, before the rest. */
  lemma CountWordsCons(w: string, c: char, rest: string)
    requires |w| > 0 && NoSpace(w) && IsSpace(c)
    ensures CountWords(w + [c] + rest) == 1 + CountWords(rest)
  {
    CountWordsAtSpace(w, c, rest);
    CountWordsOfWord(w);
  }

  /** Leading whitespace counts for nothing. */
  lemma CountWordsSkip(c: char, rest: string)
    requires IsSpace(c)
    ensures CountWords([c] + rest) == CountWords(rest)
  {
    CountWordsAtSpace([], c, rest);
  }

  /** A run of one or more whitespace characters is one delimiter, however long. */
  lemma CountWordsRun(a: string, run: string, b: string)
    requires |run| > 0 && AllSpace(run)
    ensures CountWords(a + run + b) == CountWords(a) + CountWords(b)
  {
    var n := |run|;
    assert a + run + b == a + run[..n - 1] + [run[n - 1]] + b;
    CountWordsAtSpace(a + run[..n - 1], run[n - 1], b);
    if n > 1 {
      assert a + run[..n - 1] == a + [run[0]] + run[1..n - 1];
      CountWordsAtSpace(a, run[0], run[1..n - 1]);
      SplitSpace(run[1..n - 1]);
    } else {
      assert a + run[..n - 1] == a;
    }
  }

  /** The word counts that the module's tests expect of the empty text and of one word. */
  lemma CountWordsExamples()
    ensures CountWords("") == 0
    ensures CountWords("hello") == 1
  {
    CountWordsOfWord("hello");
  }

  /** Words joined by single spaces count as exactly those words. */
  lemma CountWordsOfJoin(words: seq<string>)
    requires forall k :: 0 <= k < |words| ==> |words[k]| > 0 && NoSpace(words[k])
    ensures CountWords(JoinWords(words)) == |words|
  {
    SplitJoin(words);
  }

  /** Six words with single spaces between them count as six. */
  lemma CountSixWords(w0: string, w1: string, w2: string, w3: string, w4: string, w5: string)
    requires |w0| > 0 && NoSpace(w0) && |w1| > 0 && NoSpace(w1) && |w2| > 0 && NoSpace(w2)
    requires |w3| > 0 && NoSpace(w3) && |w4| > 0 && NoSpace(w4) && |w5| > 0 && NoSpace(w5)
    ensures CountWords(w0 + [' '] + w1 + [' '] + w2 + [' '] + w3 + [' '] + w4 + [' '] + w5) == 6
  {
    var x1 := w0 + [' '] + w1;
    var x2 := x1 + [' '] + w2;
    var x3 := x2 + [' '] + w3;
    var x4 := x3 + [' '] + w4;
    CountWordsAtSpace(x4, ' ', w5);
    CountWordsAtSpace(x3, ' ', w4);
    CountWordsAtSpace(x2, ' ', w3);
    CountWordsAtSpace(x1, ' ', w2);
    CountWordsAtSpace(w0, ' ', w1);
    CountWordsOfWord(w0);
    CountWordsOfWord(w1);
    CountWordsOfWord(w2);
    CountWordsOfWord(w3);
    CountWordsOfWord(w4);
    CountWordsOfWord(w5);
  }

  /** The module's first test sentence, as its words and single spaces. */
  lemma SentencePieces()
    ensures "Hello world this is a test" ==
      "Hello" + [' '] + "world" + [' '] + "this" + [' '] + "is" + [' '] + "a" + [' '] + "test"
  {
  }

  /** The module's punctuated test sentence, as its words and single spaces. */
  lemma PunctuatedPieces()
    ensures "Hello, world! How are you today?" ==
      "Hello," + [' '] + "world!" + [' '] + "How" + [' '] + "are" + [' '] + "you" + [' '] + "today?"
  {
  }

  /** Six words between single spaces, as in the module's tests. */
  lemma CountWordsSentence()
    ensures CountWords("Hello world this is a test") == 6
  {
    SentencePieces();
    CountSixWords("Hello", "world", "this", "is", "a", "test");
  }

  /** Six words with their punctuation attached, as in the module's tests. */
  lemma CountWordsPunctuation()
    ensures CountWords("Hello, world! How are you today?") == 6
  {
    PunctuatedPieces();
    CountSixWords("Hello,", "world!", "How", "are", "you", "today?");
  }

  /** Three words separated by runs of whitespace of any length count as three. */
  lemma CountThreeWords(w1: string, r1: string, w2: string, r2: string, w3: string)
    requires |w1| > 0 && NoSpace(w1) && |w2| > 0 && NoSpace(w2) && |w3| > 0 && NoSpace(w3)
    requires |r1| > 0 && AllSpace(r1) && |r2| > 0 && AllSpace(r2)
    ensures CountWords(w1 + r1 + w2 + r2 + w3) == 3
  {
    CountWordsRun(w1 + r1 + w2, r2, w3);
    CountWordsRun(w1, r1, w2);
    CountWordsOfWord(w1);
    CountWordsOfWord(w2);
    CountWordsOfWord(w3);
  }

  /** The module's test text with repeated spaces, as its words and runs. */
  lemma SpacedPieces()
    ensures "hello    world   test" == "hello" + "    " + "world" + "   " + "test"
  {
  }

  /** Repeated spaces separate words like one space does, as in the module's tests. */
  lemma CountWordsSpaced()
    ensures CountWords("hello    world   test") == 3
  {
    SpacedPieces();
    CountThreeWords("hello", "    ", "world", "   ", "test");
  }

  // ---------------------------------------------------------------------------
  // count_characters
  // ---------------------------------------------------------------------------

  /** The number of characters of `s` that satisfy `p`. */
  function CountWhere(s: string, p: char -> bool): (n: nat)
    ensures n <= |s|
    ensures n == |s| <==> forall i :: 0 <= i < |s| ==> p(s[i])
  {
    if s == [] then 0 else (if p(s[0]) then 1 else 0) + CountWhere(s[1..], p)
  }

  /** Counting one more character at the end. */
  lemma {:induction false} CountWhereAppend(s: string, x: char, p: char -> bool)
    ensures CountWhere(s + [x], p) == CountWhere(s, p) + (if p(x) then 1 else 0)
    decreases |s|
  {
    if s != [] {
      assert (s + [x])[1..] == s[1..] + [x];
      CountWhereAppend(s[1..], x, p);
    }
  }

  /** The number of characters of `text` that lower-case to `c`. */
  function Occurrences(text: string, c: char): nat {
    CountWhere(text, x => Lower(x) == c)
  }

  /** The number of characters of `text` that are letters once lower-cased. */
  function Letters(text: string): nat {
    CountWhere(text, x => IsAlpha(Lower(x)))
  }

  /** Adds one occurrence of `c` to a tally, starting a new key at zero. */
  function Bump(m: map<char, nat>, c: char): map<char, nat> {
    m[c := (if c in m then m[c] else 0) + 1]
  }

  /**
   The tally `count_characters` builds, one character at a time from the left:
   the lower-cased character is looked up and its count incremented.
   */
  function Tally(text: string): (m: map<char, nat>)
    ensures forall k :: k in m ==> Lower(k) == k && m[k] >= 1
    ensures m == map[] <==> text == []
    decreases |text|
  {
    if text == [] then map[]
    else Bump(Tally(text[..|text| - 1]), Lower(text[|text| - 1]))
  }

  /** Appending a character bumps its lower-cased key. */
  lemma TallySnoc(s: string, c: char)
    ensures Tally(s + [c]) == Bump(Tally(s), Lower(c))
  {
    assert (s + [c])[..|s|] == s;
  }

  /** Tallying one more character of a text bumps its lower-cased key. */
  lemma TallyPrefix(text: string, i: nat)
    requires i < |text|
    ensures Tally(text[..i + 1]) == Bump(Tally(text[..i]), Lower(text[i]))
  {
    assert text[..i + 1][..i] == text[..i];
  }

  /** Starting a missing key at 0 and then incrementing it is one Bump. */
  lemma StartThenIncrement(before: map<char, nat>, started: map<char, nat>, after: map<char, nat>, c: char)
    requires started == if c in before then before else before[c := 0]
    requires c in started && after == started[c := started[c] + 1]
    ensures after == Bump(before, c)
  {
  }

  /** `count_characters`: the loop over `text` that fills the dictionary. */
  method CountCharacters(text: string) returns (charCount: map<char, nat>)
    ensures charCount == Tally(text)
  {
    charCount := map[];
    for i := 0 to |text|
      invariant charCount == Tally(text[..i])
    {
      var c := Lower(text[i]);
      ghost var before := charCount;
      if c !in charCount {
        charCount := charCount[c := 0];
      }
      ghost var started := charCount;
      charCount := charCount[c := charCount[c] + 1];
      StartThenIncrement(before, started, charCount, c);
      TallyPrefix(text, i);
    }
    assert text[..|text|] == text;
  }

  /**
   The tally has a key exactly for each character that occurs (after lower-casing),
   and the key's count is the number of its occurrences.
   */
  lemma {:induction false} TallyCounts(text: string, c: char)
    ensures c in Tally(text) <==> Occurrences(text, c) > 0
    ensures c in Tally(text) ==> Tally(text)[c] == Occurrences(text, c)
    decreases |text|
  {
    if text != [] {
      var n := |text| - 1;
      var s, x := text[..n], text[n];
      assert text == s + [x];
      TallyCounts(s, c);
      CountWhereAppend(s, x, y => Lower(y) == c);
    }
  }

  /** Texts that agree up to case have the same tally. */
  lemma {:induction false} TallyIgnoresCase(s: string, t: string)
    requires |s| == |t|
    requires forall i :: 0 <= i < |s| ==> Lower(s[i]) == Lower(t[i])
    ensures Tally(s) == Tally(t)
    decreases |s|
  {
    if s != [] {
      var n := |s| - 1;
      TallyIgnoresCase(s[..n], t[..n]);
    }
  }

  /** Upper-casing or lower-casing the text first does not change the tally. */
  lemma TallyOfCaseMapped(text: string)
    ensures Tally(UpperString(text)) == Tally(text)
    ensures Tally(LowerString(text)) == Tally(text)
  {
    forall i | 0 <= i < |text| ensures Lower(UpperString(text)[i]) == Lower(text[i]) {
      LowerUpper(text[i]);
    }
    forall i | 0 <= i < |text| ensures Lower(LowerString(text)[i]) == Lower(text[i]) {
      LowerUpper(text[i]);
    }
    TallyIgnoresCase(UpperString(text), text);
    TallyIgnoresCase(LowerString(text), text);
  }

  /** The tally of five characters, one bump per character in order. */
  lemma TallyFive(a: char, b: char, c: char, d: char, e: char)
    ensures Tally([a] + [b] + [c] + [d] + [e]) ==
      Bump(Bump(Bump(Bump(Bump(map[], Lower(a)), Lower(b)), Lower(c)), Lower(d)), Lower(e))
  {
    TallySnoc([], a);
    assert [] + [a] == [a];
    TallySnoc([a], b);
    TallySnoc([a] + [b], c);
    TallySnoc([a] + [b] + [c], d);
    TallySnoc([a] + [b] + [c] + [d], e);
  }

  /** The tally of nine characters, one bump per character in order. */
  lemma TallyNine(a: char, b: char, c: char, d: char, e: char, f: char, g: char, h: char, i: char)
    ensures Tally([a] + [b] + [c] + [d] + [e] + [f] + [g] + [h] + [i]) ==
      Bump(Bump(Bump(Bump(Bump(Bump(Bump(Bump(Bump(map[], Lower(a)), Lower(b)), Lower(c)), Lower(d)),
        Lower(e)), Lower(f)), Lower(g)), Lower(h)), Lower(i))
  {
    TallyFive(a, b, c, d, e);
    TallySnoc([a] + [b] + [c] + [d] + [e], f);
    TallySnoc([a] + [b] + [c] + [d] + [e] + [f], g);
    TallySnoc([a] + [b] + [c] + [d] + [e] + [f] + [g], h);
    TallySnoc([a] + [b] + [c] + [d] + [e] + [f] + [g] + [h], i);
  }

  /** The test words "hello" and "Hello", character by character. */
  lemma HelloPieces()
    ensures "hello" == ['h'] + ['e'] + ['l'] + ['l'] + ['o']
    ensures "Hello" == ['H'] + ['e'] + ['l'] + ['l'] + ['o']
  {
  }

  /** Counting h, e, l, l, o gives {h:1, e:1, l:2, o:1}. */
  lemma HelloBumps()
    ensures Bump(Bump(Bump(Bump(Bump(map[], 'h'), 'e'), 'l'), 'l'), 'o') ==
      map['h' := 1, 'e' := 1, 'l' := 2, 'o' := 1]
  {
  }

  /** The tallies that the module's tests expect of "hello", of "Hello" (the same) and of "". */
  lemma TallyExamples()
    ensures Tally("hello") == map['h' := 1, 'e' := 1, 'l' := 2, 'o' := 1]
    ensures Tally("Hello") == map['h' := 1, 'e' := 1, 'l' := 2, 'o' := 1]
    ensures Tally("") == map[]
  {
    HelloPieces();
    TallyFive('h', 'e', 'l', 'l', 'o');
    TallyFive('H', 'e', 'l', 'l', 'o');
    HelloBumps();
  }

  /** The test text "hi there!", character by character. */
  lemma HiTherePieces()
    ensures "hi there!" == ['h'] + ['i'] + [' '] + ['t'] + ['h'] + ['e'] + ['r'] + ['e'] + ['!']
  {
  }

  /** Counting h, i, ' ', t, h, e, r, e, ! gives {h:2, i:1, ' ':1, t:1, e:2, r:1, !:1}. */
  lemma HiThereBumps()
    ensures Bump(Bump(Bump(Bump(Bump(Bump(Bump(Bump(Bump(map[], 'h'), 'i'), ' '), 't'), 'h'), 'e'), 'r'), 'e'), '!')
      == map['h' := 2, 'i' := 1, ' ' := 1, 't' := 1, 'e' := 2, 'r' := 1, '!' := 1]
  {
  }

  /** The tally the module's tests expect of "hi there!": spaces and punctuation are counted too. */
  lemma TallyHiThere()
    ensures Tally("hi there!") == map['h' := 2, 'i' := 1, ' ' := 1, 't' := 1, 'e' := 2, 'r' := 1, '!' := 1]
  {
    HiTherePieces();
    TallyNine('h', 'i', ' ', 't', 'h', 'e', 'r', 'e', '!');
    HiThereBumps();
  }

  // ---------------------------------------------------------------------------
  // Sums over a tally
  // ---------------------------------------------------------------------------

  /** The sum of the counts of a tally, over all its keys. */
  ghost function Total(m: map<char, int>): int
    decreases |m|
  {
    if m == map[] then 0
    else
      var k :| k in m;
      assert |m - {k}| < |m| by { assert (m - {k}).Keys == m.Keys - {k}; }
      m[k] + Total(m - {k})
  }

  /** The sum does not depend on which key is taken out first. */
  lemma {:induction false} TotalRemove(m: map<char, int>, k: char)
    requires k in m
    ensures Total(m) == m[k] + Total(m - {k})
    decreases |m|
  {
    var j :| j in m && Total(m) == m[j] + Total(m - {j});
    if j != k {
      assert (m - {j}).Keys == m.Keys - {j};
      assert (m - {k}).Keys == m.Keys - {k};
      TotalRemove(m - {j}, k);
      TotalRemove(m - {k}, j);
      assert m - {j} - {k} == m - {k} - {j};
    }
  }

  /** Counting one more character adds one to the sum. */
  lemma TotalBump(m: map<char, nat>, c: char)
    ensures Total(Bump(m, c)) == Total(m) + 1
  {
    var b := Bump(m, c);
    TotalRemove(b, c);
    assert b - {c} == m - {c};
    if c in m {
      TotalRemove(m, c);
    } else {
      assert m - {c} == m;
    }
  }

  /** Every character is tallied once: the counts sum to the length of the text. */
  lemma {:induction false} TallyTotal(text: string)
    ensures Total(Tally(text)) == |text|
    decreases |text|
  {
    if text != [] {
      var n := |text| - 1;
      TallyTotal(text[..n]);
      TotalBump(Tally(text[..n]), Lower(text[n]));
    }
  }

  /** The part of a tally whose keys are letters. */
  function AlphaPart(m: map<char, nat>): map<char, nat> {
    map k | k in m && IsAlpha(k) :: m[k]
  }

  /** Counting a character changes the letter part only when it is a letter. */
  lemma AlphaPartBump(m: map<char, nat>, c: char)
    ensures AlphaPart(Bump(m, c)) == if IsAlpha(c) then Bump(AlphaPart(m), c) else AlphaPart(m)
  {
  }

  /** The letter counts of a tally sum to the number of letters in the text. */
  lemma {:induction false} AlphaTotal(text: string)
    ensures Total(AlphaPart(Tally(text))) == Letters(text)
    ensures Letters(text) <= |text|
    decreases |text|
  {
    if text != [] {
      var n := |text| - 1;
      var s, x := text[..n], text[n];
      assert text == s + [x];
      AlphaTotal(s);
      CountWhereAppend(s, x, y => IsAlpha(Lower(y)));
      var c := Lower(x);
      assert Tally(text) == Bump(Tally(s), c);
      AlphaPartBump(Tally(s), c);
      if IsAlpha(c) {
        TotalBump(AlphaPart(Tally(s)), c);
      }
    }
  }

  // ---------------------------------------------------------------------------
  // get_character_report and sort_on
  // ---------------------------------------------------------------------------

  /** One line of the report, the dictionary `{"char": ch, "num": num}`. */
  datatype Record = Record(ch: char, num: int)

  /** `sort_on`: the sort key of a record, its count; the character takes no part. */
  function SortOn(r: Record): (key: int)
    ensures key == r.num
  {
    r.num
  }

  /** True iff `key` never increases from left to right along `s`. */
  ghost predicate NonIncreasing<T>(s: seq<T>, key: T -> int) {
    forall p, q :: 0 <= p < q < |s| ==> key(s[p]) >= key(s[q])
  }

  /** Exchanges two elements of `a`. */
  method Swap<T>(a: array<T>, i: int, j: int)
    requires 0 <= i < a.Length && 0 <= j < a.Length
    modifies a
    ensures a[i] == old(a[j]) && a[j] == old(a[i])
    ensures forall k :: 0 <= k < a.Length && k != i && k != j ==> a[k] == old(a[k])
    ensures multiset(a[..]) == old(multiset(a[..]))
  {
    a[i], a[j] := a[j], a[i];
  }

  /**
   Moves `a[i]` left past every element with a smaller key, so that the prefix
   `a[..i + 1]` becomes sorted when `a[..i]` was.
   */
  method InsertLeft<T>(a: array<T>, i: int, key: T -> int)
    requires 0 <= i < a.Length
    requires forall p, q :: 0 <= p < q < i ==> key(a[p]) >= key(a[q])
    modifies a
    ensures forall p, q :: 0 <= p < q <= i ==> key(a[p]) >= key(a[q])
    ensures multiset(a[..]) == old(multiset(a[..]))
    ensures forall k :: i < k < a.Length ==> a[k] == old(a[k])
  {
    var j := i;
    while j > 0 && key(a[j - 1]) < key(a[j])
      invariant 0 <= j <= i
      invariant multiset(a[..]) == old(multiset(a[..]))
      invariant forall k :: i < k < a.Length ==> a[k] == old(a[k])
      invariant forall p, q :: 0 <= p < q <= i && p != j && q != j ==> key(a[p]) >= key(a[q])
      invariant forall q :: j < q <= i ==> key(a[j]) > key(a[q])
      decreases j
    {
      Swap(a, j - 1, j);
      j := j - 1;
    }
  }

  /**
   `list.sort(key=key, reverse=True)`: sorts `a` in place so that the keys never
   increase, by insertion sort.
   */
  method SortDescending<T>(a: array<T>, key: T -> int)
    modifies a
    ensures NonIncreasing(a[..], key)
    ensures multiset(a[..]) == old(multiset(a[..]))
  {
    var i := 0;
    while i < a.Length
      invariant 0 <= i <= a.Length
      invariant forall p, q :: 0 <= p < q < i ==> key(a[p]) >= key(a[q])
      invariant multiset(a[..]) == old(multiset(a[..]))
    {
      InsertLeft(a, i, key);
      i := i + 1;
    }
  }

  /** True iff `r` lists exactly the entries of `m`, each once. */
  ghost predicate Enumerates(r: seq<Record>, m: map<char, nat>) {
    && (forall e :: e in r <==> e.ch in m && e.num == m[e.ch])
    && (forall e :: multiset(r)[e] <= 1)
  }

  /** True iff `report` is a report of `charCount`: its letter entries, each once, by non-increasing count. */
  ghost predicate IsReport(report: seq<Record>, charCount: map<char, nat>) {
    Enumerates(report, AlphaPart(charCount)) && NonIncreasing(report, SortOn)
  }

  /**
   `get_character_report`: collects a record for every alphabetic key, visiting the
   keys in an order the dictionary chooses, then sorts by count, highest first.
   */
  method GetCharacterReport(charCount: map<char, nat>) returns (report: seq<Record>)
    ensures forall e :: e in report <==> e.ch in charCount && IsAlpha(e.ch) && e.num == charCount[e.ch]
    ensures forall e :: multiset(report)[e] <= 1
    ensures NonIncreasing(report, SortOn)
    ensures report == [] <==> forall k :: k in charCount ==> !IsAlpha(k)
    ensures IsReport(report, charCount)
  {
    var charList: seq<Record> := [];
    var todo := charCount.Keys;
    while todo != {}
      invariant todo <= charCount.Keys
      invariant forall e :: e in charList <==> e.ch in charCount && e.ch !in todo && IsAlpha(e.ch) && e.num == charCount[e.ch]
      invariant forall e :: multiset(charList)[e] <= 1
      decreases |todo|
    {
      var c :| c in todo;
      if IsAlpha(c) {
        charList := charList + [Record(c, charCount[c])];
      }
      todo := todo - {c};
    }
    var a := new Record[|charList|](i requires 0 <= i < |charList| => charList[i]);
    assert a[..] == charList;
    SortDescending(a, SortOn);
    report := a[..];
    forall e ensures e in report <==> e in charList {
      assert e in report <==> e in multiset(report);
      assert e in charList <==> e in multiset(charList);
    }
    if report != [] {
      assert report[0] in report;
      assert report[0].ch in charCount && IsAlpha(report[0].ch);
    } else {
      forall k | k in charCount ensures !IsAlpha(k) {
        assert Record(k, charCount[k]) !in report;
      }
    }
  }

  /** The counts of a sequence of records, in order. */
  function Nums(r: seq<Record>): (ns: seq<int>)
    ensures |ns| == |r|
  {
    seq(|r|, i requires 0 <= i < |r| => r[i].num)
  }

  /** The sum of the counts of a sequence of records. */
  function SumNums(r: seq<Record>): int {
    if r == [] then 0 else r[0].num + SumNums(r[1..])
  }

  /** True iff the integers of `s` never increase. */
  ghost predicate Descending(s: seq<int>) {
    forall p, q :: 0 <= p < q < |s| ==> s[p] >= s[q]
  }

  /**
   Sorting on `sort_on` ranks by count alone: records are in non-increasing
   `sort_on` order exactly when their counts, read left to right, never increase.
   */
  lemma SortOnRanksByCount(r: seq<Record>)
    ensures NonIncreasing(r, SortOn) <==> Descending(Nums(r))
  {
    assert forall p :: 0 <= p < |r| ==> SortOn(r[p]) == Nums(r)[p];
  }

  /** The counts of a concatenation, as a multiset. */
  lemma NumsAppend(s: seq<Record>, t: seq<Record>)
    ensures Nums(s + t) == Nums(s) + Nums(t)
    ensures multiset(Nums(s + t)) == multiset(Nums(s)) + multiset(Nums(t))
  {
    assert Nums(s + t) == Nums(s) + Nums(t);
  }

  /** Adding the same element to two multisets keeps them apart, or equal. */
  lemma MultisetCancel(m: multiset<Record>, n: multiset<Record>, x: Record)
    requires m + multiset{x} == n + multiset{x}
    ensures m == n
  {
    assert forall e :: m[e] == (m + multiset{x})[e] - multiset{x}[e];
    assert forall e :: n[e] == (n + multiset{x})[e] - multiset{x}[e];
  }

  /** An element of `b` splits it into what comes before and after one of its occurrences. */
  lemma PickOut(b: seq<Record>, x: Record) returns (before: seq<Record>, after: seq<Record>)
    requires x in multiset(b)
    ensures b == before + ([x] + after)
    ensures multiset(b) == multiset(before + after) + multiset{x}
  {
    var j :| 0 <= j < |b| && b[j] == x;
    before, after := b[..j], b[j + 1..];
    assert b == before + ([x] + after);
  }

  /** The multiset of counts gains `x.num` when `x` is inserted anywhere. */
  lemma NumsInsert(before: seq<Record>, x: Record, after: seq<Record>)
    ensures multiset(Nums(before + ([x] + after))) == multiset(Nums(before + after)) + multiset{x.num}
  {
    assert Nums([x]) == [x.num];
    NumsAppend([x], after);
    NumsAppend(before, [x] + after);
    NumsAppend(before, after);
  }

  /** The multiset of counts of a non-empty sequence: its head's count and its tail's. */
  lemma NumsCons(a: seq<Record>)
    requires a != []
    ensures multiset(Nums(a)) == multiset(Nums(a[1..])) + multiset{a[0].num}
  {
    assert a == [a[0]] + a[1..];
    assert Nums([a[0]]) == [a[0].num];
    NumsAppend([a[0]], a[1..]);
  }

  /** Records that are a permutation of each other have counts that are a permutation of each other. */
  lemma {:induction false} PermutedNums(a: seq<Record>, b: seq<Record>)
    requires multiset(a) == multiset(b)
    ensures multiset(Nums(a)) == multiset(Nums(b))
    decreases |a|
  {
    if a != [] {
      var x := a[0];
      assert x in multiset(b);
      var before, after := PickOut(b, x);
      var rest := a[1..];
      assert a == [x] + rest;
      assert multiset(a) == multiset(rest) + multiset{x};
      MultisetCancel(multiset(rest), multiset(before + after), x);
      PermutedNums(rest, before + after);
      NumsCons(a);
      NumsInsert(before, x, after);
    }
  }

  /** The head of a descending sequence is at least each of its elements. */
  lemma DescendingHead(a: seq<int>, v: int)
    requires Descending(a) && v in multiset(a)
    ensures |a| > 0 && a[0] >= v
  {
    assert v in a;
    var i :| 0 <= i < |a| && a[i] == v;
    if i > 0 {
      assert a[0] >= a[i];
    }
  }

  /** Dropping the head of a non-empty sequence removes one occurrence of it; the rest stays descending. */
  lemma DescendingTail(a: seq<int>)
    requires Descending(a) && a != []
    ensures Descending(a[1..])
    ensures multiset(a[1..]) == multiset(a) - multiset{a[0]}
  {
    assert a == [a[0]] + a[1..];
  }

  /** Sequences with the same head and the same tail are equal. */
  lemma SameHeadSameTail(a: seq<int>, b: seq<int>)
    requires a != [] && b != [] && a[0] == b[0] && a[1..] == b[1..]
    ensures a == b
  {
    assert a == [a[0]] + a[1..] && b == [b[0]] + b[1..];
  }

  /** Two descending sequences of integers that are permutations of each other are equal. */
  lemma {:induction false} DescendingUnique(a: seq<int>, b: seq<int>)
    requires Descending(a) && Descending(b)
    requires multiset(a) == multiset(b)
    ensures a == b
    decreases |a|
  {
    if a == [] {
      assert |b| == |multiset(b)| == 0;
    } else {
      assert a[0] in multiset(a) && b[0] in multiset(b);
      DescendingHead(b, a[0]);
      DescendingHead(a, b[0]);
      DescendingTail(a);
      DescendingTail(b);
      DescendingUnique(a[1..], b[1..]);
      SameHeadSameTail(a, b);
    }
  }

  /**
   Any two reports of one tally have the same counts at the same positions: the
   report is determined up to the order of characters with equal counts.
   */
  lemma ReportsAgree(r1: seq<Record>, r2: seq<Record>, charCount: map<char, nat>)
    requires IsReport(r1, charCount) && IsReport(r2, charCount)
    ensures |r1| == |r2|
    ensures forall i :: 0 <= i < |r1| ==> r1[i].num == r2[i].num
  {
    forall e ensures multiset(r1)[e] == multiset(r2)[e] {
      assert e in r1 <==> e in r2;
      assert e in r1 <==> e in multiset(r1);
      assert e in r2 <==> e in multiset(r2);
    }
    assert multiset(r1) == multiset(r2);
    PermutedNums(r1, r2);
    DescendingUnique(Nums(r1), Nums(r2));
    assert |Nums(r1)| == |Nums(r2)|;
    forall i | 0 <= i < |r1| ensures r1[i].num == r2[i].num {
      assert Nums(r1)[i] == Nums(r2)[i];
    }
  }

  /** An element that sits at two positions occurs at least twice. */
  lemma DuplicateCount(s: seq<Record>, i: int, j: int)
    requires 0 <= i < j < |s| && s[i] == s[j]
    ensures multiset(s)[s[i]] >= 2
  {
    assert s == s[..j] + [s[j]] + s[j + 1..];
    assert s[i] == s[..j][i];
    assert multiset(s[..j])[s[i]] >= 1;
  }

  /** No character appears twice in a report, and each record carries its tally count. */
  lemma ReportPositions(report: seq<Record>, charCount: map<char, nat>)
    requires IsReport(report, charCount)
    ensures forall i :: 0 <= i < |report| ==> report[i].ch in charCount && IsAlpha(report[i].ch) && report[i].num == charCount[report[i].ch]
    ensures forall i, j :: 0 <= i < j < |report| ==> report[i].ch != report[j].ch
  {
    forall i | 0 <= i < |report|
      ensures report[i].ch in charCount && IsAlpha(report[i].ch) && report[i].num == charCount[report[i].ch]
    {
      assert report[i] in report;
    }
    forall i, j | 0 <= i < j < |report| ensures report[i].ch != report[j].ch {
      assert report[i] in report && report[j] in report;
      if report[i] == report[j] {
        DuplicateCount(report, i, j);
      }
    }
  }

  /** The tally of the module's tests for the report: {a:5, b:3, c:8, '!':2, ' ':10}. */
  function ExampleTally(): map<char, nat> {
    map['a' := 5, 'b' := 3, 'c' := 8, '!' := 2, ' ' := 10]
  }

  /** The letter part of ExampleTally drops '!' and ' '. */
  lemma ExampleAlphaPart()
    ensures AlphaPart(ExampleTally()) == map['a' := 5, 'b' := 3, 'c' := 8]
  {
  }

  /** Three records with distinct characters enumerate the three-entry map they list. */
  lemma EnumeratesThree(x: Record, y: Record, z: Record)
    requires x.ch != y.ch && y.ch != z.ch && x.ch != z.ch
    requires x.num >= 0 && y.num >= 0 && z.num >= 0
    ensures Enumerates([x, y, z], map[x.ch := x.num, y.ch := y.num, z.ch := z.num])
  {
    var r := [x, y, z];
    forall e ensures multiset(r)[e] <= 1 {
      assert multiset(r) == multiset{x} + multiset{y} + multiset{z};
    }
  }

  /** The report the module's tests expect of ExampleTally is a report of it. */
  lemma ExpectedIsReport()
    ensures IsReport([Record('c', 8), Record('a', 5), Record('b', 3)], ExampleTally())
  {
    ExampleAlphaPart();
    EnumeratesThree(Record('c', 8), Record('a', 5), Record('b', 3));
    assert map['c' := 8, 'a' := 5, 'b' := 3] == map['a' := 5, 'b' := 3, 'c' := 8];
  }

  /**
   The report of ExampleTally is exactly [c:8, a:5, b:3]: the letters only, by
   count, and with no ties there is no other order.
   */
  lemma ReportExample(report: seq<Record>)
    requires IsReport(report, ExampleTally())
    ensures report == [Record('c', 8), Record('a', 5), Record('b', 3)]
  {
    var t := ExampleTally();
    var expected := [Record('c', 8), Record('a', 5), Record('b', 3)];
    ExpectedIsReport();
    ReportsAgree(report, expected, t);
    ReportPositions(report, t);
    assert report[0].num == 8 && report[1].num == 5 && report[2].num == 3;
    assert forall k :: k in t && IsAlpha(k) ==> k == 'a' || k == 'b' || k == 'c';
    assert report[0].ch == 'c';
    assert report[1].ch == 'a';
    assert report[2].ch == 'b';
  }

  /** The first record of an enumeration is an entry of the map. */
  lemma EnumeratesHead(r: seq<Record>, m: map<char, nat>)
    requires Enumerates(r, m) && r != []
    ensures r[0].ch in m && r[0].num == m[r[0].ch]
  {
    assert r[0] in r;
  }

  /** A tally without alphabetic keys, the empty one included, has only the empty report. */
  lemma ReportOfNoLetters(report: seq<Record>, charCount: map<char, nat>)
    requires IsReport(report, charCount)
    requires forall k :: k in charCount ==> !IsAlpha(k)
    ensures report == []
  {
    if report != [] {
      EnumeratesHead(report, AlphaPart(charCount));
      assert false;
    }
  }

  /** The module's tests: {'!':5, ' ':3, '1':2} and {} both report nothing. */
  lemma ReportNoLettersExamples(r1: seq<Record>, r2: seq<Record>)
    requires IsReport(r1, map['!' := 5, ' ' := 3, '1' := 2])
    requires IsReport(r2, map[])
    ensures r1 == [] && r2 == []
  {
    ReportOfNoLetters(r1, map['!' := 5, ' ' := 3, '1' := 2]);
    ReportOfNoLetters(r2, map[]);
  }

  /** An enumeration lists the entry of every key. */
  lemma EnumeratesMember(r: seq<Record>, m: map<char, nat>, k: char)
    requires Enumerates(r, m) && k in m
    ensures Record(k, m[k]) in r
  {
  }

  /** The counts listed by an enumeration of a tally sum to the tally's total. */
  lemma {:induction false} EnumeratesTotal(r: seq<Record>, m: map<char, nat>)
    requires Enumerates(r, m)
    ensures SumNums(r) == Total(m)
    decreases |r|
  {
    if r == [] {
      if m != map[] {
        var k :| k in m;
        EnumeratesMember(r, m, k);
        assert false;
      }
    } else {
      var x := r[0];
      var m' := m - {x.ch};
      assert r == [x] + r[1..];
      assert x in r;
      forall e ensures e in r[1..] <==> e.ch in m' && e.num == m'[e.ch] {
        if e in r[1..] {
          assert e in r;
          assert multiset(r)[e] == multiset([x])[e] + multiset(r[1..])[e];
        }
      }
      forall e ensures multiset(r[1..])[e] <= 1 {
        assert multiset(r)[e] == multiset([x])[e] + multiset(r[1..])[e];
      }
      EnumeratesTotal(r[1..], m');
      TotalRemove(m, x.ch);
      assert SumNums(r) == x.num + SumNums(r[1..]);
    }
  }

  /**
   Tally and report together: the counts in the report of a text's
   tally sum to the number of letters of the text, never more than its length.
   */
  lemma ReportSumsLetters(text: string, report: seq<Record>)
    requires IsReport(report, Tally(text))
    ensures SumNums(report) == Letters(text)
    ensures SumNums(report) <= |text|
  {
    EnumeratesTotal(report, AlphaPart(Tally(text)));
    AlphaTotal(text);
  }
}
