/** The Python string and list operations the miner relies on, with the
    semantics of CPython 2 on ASCII text. */
module PyStr {

  /** Characters that Python's argument-less `split()` and `strip()` treat
      as whitespace (the ASCII ones). */
  predicate IsSpace(c: char) {
    c == ' ' || c == '\t' || c == '\n' || c == '\r' || c == '\U{000B}' || c == '\U{000C}'
  }

  predicate IsPrefix(p: string, s: string) {
    |p| <= |s| && s[..|p|] == p
  }

  /** `sub in s`, equivalently `s.find(sub) != -1`. */
  predicate Contains(s: string, sub: string)
    decreases |s|
  {
    IsPrefix(sub, s) || (|s| > 0 && Contains(s[1..], sub))
  }

  /** `sub` occurs in `s` starting at index `i`. */
  predicate OccursAt(s: string, sub: string, i: int) {
    0 <= i && i + |sub| <= |s| && s[i..i + |sub|] == sub
  }

  /** `Contains` agrees with the positional definition of a substring. */
  lemma {:induction false} ContainsAt(s: string, sub: string)
    ensures Contains(s, sub) <==> exists i :: OccursAt(s, sub, i)
    decreases |s|
  {
    if IsPrefix(sub, s) {
      assert OccursAt(s, sub, 0);
    } else if Contains(s, sub) {
      ContainsAt(s[1..], sub);
      var i :| OccursAt(s[1..], sub, i);
      assert s[1..][i..i + |sub|] == s[i + 1..i + 1 + |sub|];
      assert OccursAt(s, sub, i + 1);
    }
    forall i | OccursAt(s, sub, i)
      ensures Contains(s, sub)
    {
      if i == 0 {
        assert s[..|sub|] == s[i..i + |sub|];
      } else {
        var t := s[1..];
        assert t[i - 1..i - 1 + |sub|] == s[i..i + |sub|];
        assert OccursAt(t, sub, i - 1);
        ContainsAt(t, sub);
      }
    }
  }

  /** A string contains every one of its infixes. */
  lemma ContainsInfix(s: string, i: nat, sub: string)
    requires OccursAt(s, sub, i)
    ensures Contains(s, sub)
  {
    ContainsAt(s, sub);
  }

  /** Python's `str.lower()` restricted to ASCII letters. */
  function LowerChar(c: char): char {
    if 'A' <= c <= 'Z' then (c as int + 32) as char else c
  }

  function Lower(s: string): (r: string)
    ensures |r| == |s|
    ensures forall i :: 0 <= i < |s| ==> !('A' <= r[i] <= 'Z')
    ensures forall i :: 0 <= i < |s| ==>
              if 'A' <= s[i] <= 'Z' then r[i] as int == s[i] as int + 32 else r[i] == s[i]
  {
    seq(|s|, i requires 0 <= i < |s| => LowerChar(s[i]))
  }

  /** Lower-casing twice is lower-casing once. */
  lemma LowerIdempotent(s: string)
    ensures Lower(Lower(s)) == Lower(s)
  {
  }

  /** `s[k:]` for a non-negative `k`: empty when `k` is past the end. */
  function Drop(s: string, k: nat): (r: string)
    ensures |r| == if k <= |s| then |s| - k else 0
    ensures forall i :: 0 <= i < |r| ==> r[i] == s[k + i]
  {
    if k <= |s| then s[k..] else ""
  }

  /** Python's normalisation of one slice bound against a length `n`:
      negative bounds count from the end, and both are clamped to `[0, n]`. */
  function SliceIndex(i: int, n: nat): (r: nat)
    ensures r <= n
    ensures 0 <= i ==> r == if i <= n then i else n
    ensures i < 0 ==> r == if i + n < 0 then 0 else i + n
  {
    if i < 0 then (if i + n < 0 then 0 else i + n) else if i <= n then i else n
  }

  /** `s[lo : hi]` with Python's semantics for arbitrary integer bounds. */
  function PySlice<T>(s: seq<T>, lo: int, hi: int): (r: seq<T>)
    ensures |r| <= |s|
    ensures SliceIndex(lo, |s|) < SliceIndex(hi, |s|) ==> r == s[SliceIndex(lo, |s|)..SliceIndex(hi, |s|)]
    ensures SliceIndex(hi, |s|) <= SliceIndex(lo, |s|) ==> r == []
  {
    var a, b := SliceIndex(lo, |s|), SliceIndex(hi, |s|);
    if a < b then s[a..b] else []
  }

  /** For non-negative bounds a slice is the stretch between the two bounds
      cut off at the end of the sequence. */
  lemma SliceNonNegative<T>(s: seq<T>, lo: nat, hi: nat)
    ensures var a := if lo <= |s| then lo else |s|;
            var b := if hi <= |s| then hi else |s|;
            PySlice(s, lo, hi) == if a <= b then s[a..b] else []
  {
  }

  /** A slice never holds more elements than its two bounds are apart. */
  lemma {:induction false} SliceLength<T>(s: seq<T>, lo: int, hi: int)
    requires lo <= hi
    ensures |PySlice(s, lo, hi)| <= hi - lo
  {
    var n := |s|;
    var a, b := SliceIndex(lo, n), SliceIndex(hi, n);
    if a < b {
      if lo < 0 && 0 <= hi {
        assert a >= lo + n && b <= hi;
      }
    }
  }

  /** Python's `s.split(sep)` for a one-character separator. */
  function Split(s: string, sep: char): (r: seq<string>)
    ensures |r| == Count(s, sep) + 1
    ensures forall p :: p in r ==> sep !in p
    decreases |s|
  {
    if |s| == 0 then [""]
    else
      var rest := Split(s[1..], sep);
      if s[0] == sep then [""] + rest
      else [[s[0]] + rest[0]] + rest[1..]
  }

  /** Number of occurrences of `c` in `s`. */
  function Count(s: string, c: char): nat
    decreases |s|
  {
    if |s| == 0 then 0 else (if s[0] == c then 1 else 0) + Count(s[1..], c)
  }

  /** Python's `sep.join(parts)` for a one-character separator. */
  function Join(parts: seq<string>, sep: char): string
    decreases |parts|
  {
    if |parts| == 0 then ""
    else if |parts| == 1 then parts[0]
    else parts[0] + [sep] + Join(parts[1..], sep)
  }

  /** Joining the pieces of a split gives back the original string. */
  lemma {:induction false} JoinSplit(s: string, sep: char)
    ensures Join(Split(s, sep), sep) == s
    decreases |s|
  {
    if |s| > 0 {
      var rest := Split(s[1..], sep);
      JoinSplit(s[1..], sep);
      if s[0] == sep {
        assert s == [sep] + s[1..];
      } else if |rest| == 1 {
        assert s == [s[0]] + s[1..];
      } else {
        assert Join(rest, sep) == rest[0] + [sep] + Join(rest[1..], sep);
        assert s == [s[0]] + s[1..];
      }
    }
  }

  /** Splitting a join of separator-free pieces gives back the pieces. */
  lemma {:induction false} SplitJoin(parts: seq<string>, sep: char)
    requires |parts| > 0
    requires forall p :: p in parts ==> sep !in p
    ensures Split(Join(parts, sep), sep) == parts
    decreases |parts|, |parts[0]|
  {
    var p := parts[0];
    assert p in parts;
    if |p| > 0 {
      var parts' := [p[1..]] + parts[1..];
      assert forall q :: q in parts' ==> sep !in q by {
        assert forall q :: q in parts[1..] ==> q in parts;
        assert forall c :: c in p[1..] ==> c in p;
      }
      SplitJoin(parts', sep);
      JoinFirstChar(parts, sep);
      assert p[0] != sep by { assert p[0] in p; }
      SplitCons(p[0], Join(parts', sep), sep);
      assert [p[0]] + p[1..] == p;
    } else if |parts| > 1 {
      assert forall q :: q in parts[1..] ==> q in parts;
      SplitJoin(parts[1..], sep);
      assert Join(parts, sep) == [sep] + Join(parts[1..], sep);
      SplitCons(sep, Join(parts[1..], sep), sep);
      assert parts == [""] + parts[1..];
    }
  }

  /** Splitting after one more leading character. */
  lemma SplitCons(c: char, s: string, sep: char)
    ensures Split([c] + s, sep) ==
            if c == sep then [""] + Split(s, sep) else [[c] + Split(s, sep)[0]] + Split(s, sep)[1..]
  {
    assert ([c] + s)[1..] == s;
  }

  /** Moving the first character of the first piece out of a join. */
  lemma JoinFirstChar(parts: seq<string>, sep: char)
    requires |parts| > 0 && |parts[0]| > 0
    ensures Join(parts, sep) == [parts[0][0]] + Join([parts[0][1..]] + parts[1..], sep)
  {
    var parts' := [parts[0][1..]] + parts[1..];
    JoinCons(parts, sep);
    JoinCons(parts', sep);
    assert parts'[1..] == parts[1..];
    assert parts[0] == [parts[0][0]] + parts[0][1..];
  }

  lemma JoinCons(parts: seq<string>, sep: char)
    requires |parts| > 0
    ensures Join(parts, sep) == parts[0] + (if |parts| == 1 then "" else [sep] + Join(parts[1..], sep))
  {
  }

  /** Leading-whitespace length: the index where `lstrip()` starts. */
  function StripStart(s: string): (i: nat)
    ensures i <= |s|
    ensures forall k :: 0 <= k < i ==> IsSpace(s[k])
    ensures i < |s| ==> !IsSpace(s[i])
    decreases |s|
  {
    if |s| > 0 && IsSpace(s[0]) then 1 + StripStart(s[1..]) else 0
  }

  /** The index where `rstrip()` cuts off trailing whitespace. */
  function StripEnd(s: string): (j: nat)
    ensures j <= |s|
    ensures forall k :: j <= k < |s| ==> IsSpace(s[k])
    ensures j > 0 ==> !IsSpace(s[j - 1])
    decreases |s|
  {
    if |s| > 0 && IsSpace(s[|s| - 1]) then StripEnd(s[..|s| - 1]) else |s|
  }

  /** Python's argument-less `strip()`: the middle of `s` left once the
      whitespace at both ends is cut off. */
  function Strip(s: string): (r: string)
    ensures |r| > 0 ==> !IsSpace(r[0]) && !IsSpace(r[|r| - 1])
    ensures r == "" <==> forall k :: 0 <= k < |s| ==> IsSpace(s[k])
    ensures forall c :: c in r ==> c in s
    ensures exists i, j :: 0 <= i <= j <= |s| && r == s[i..j] &&
              (forall k :: 0 <= k < i ==> IsSpace(s[k])) && (forall k :: j <= k < |s| ==> IsSpace(s[k]))
  {
    var i, j := StripStart(s), StripEnd(s);
    if i < j then s[i..j]
    else
      assert s[|s|..|s|] == "";
      ""
  }

  /** A string without whitespace strips to itself, also after one leading
      space. */
  lemma StripOfWord(w: string)
    requires forall c :: c in w ==> !IsSpace(c)
    ensures Strip(w) == w && Strip([' '] + w) == w
  {
    var s := [' '] + w;
    assert s[1..] == w;
    if |w| > 0 {
      assert w[0] in w && w[|w| - 1] in w;
      assert s[|s| - 1] == w[|w| - 1];
      assert s[1..|s|] == w;
    }
  }

  /** Python's argument-less `split()`: maximal runs of non-whitespace. */
  function Words(s: string): (r: seq<string>)
    ensures forall w :: w in r ==> |w| > 0 && forall c :: c in w ==> !IsSpace(c)
    ensures |s| > 0 && !IsSpace(s[0]) ==> |r| > 0
    decreases |s|
  {
    if |s| == 0 then []
    else if IsSpace(s[0]) then Words(s[1..])
    else
      var rest := Words(s[1..]);
      if |s| > 1 && !IsSpace(s[1]) then [[s[0]] + rest[0]] + rest[1..]
      else [[s[0]]] + rest
  }

  /** A string without whitespace is a single word. */
  lemma {:induction false} WordsOfWord(w: string)
    requires |w| > 0 && forall c :: c in w ==> !IsSpace(c)
    ensures Words(w) == [w]
    decreases |w|
  {
    assert w[0] in w;
    if |w| > 1 {
      assert forall c :: c in w[1..] ==> c in w;
      WordsOfWord(w[1..]);
      assert w[1] in w;
      assert [w[0]] + w[1..] == w;
    } else {
      assert w[1..] == [];
      assert [w[0]] == w;
    }
  }

  /** `Words` after one more leading character. */
  lemma WordsCons(x: char, t: string)
    ensures Words([x] + t) ==
            if IsSpace(x) then Words(t)
            else if |t| > 0 && !IsSpace(t[0]) then [[x] + Words(t)[0]] + Words(t)[1..]
            else [[x]] + Words(t)
  {
    assert ([x] + t)[1..] == t;
  }

  /** A whitespace character splits the words of a string in two. */
  lemma {:induction false} WordsSplitAtSpace(a: string, c: char, b: string)
    requires IsSpace(c)
    ensures Words(a + [c] + b) == Words(a) + Words(b)
    decreases |a|
  {
    if |a| == 0 {
      WordsCons(c, b);
      assert a + [c] + b == [c] + b;
      assert Words(a + [c] + b) == Words(a) + Words(b);
    } else {
      var x, a' := a[0], a[1..];
      var t := a' + [c] + b;
      assert a + [c] + b == [x] + t;
      assert a == [x] + a';
      WordsSplitAtSpace(a', c, b);
      var wa, wb := Words(a'), Words(b);
      assert Words(t) == wa + wb;
      WordsCons(x, t);
      WordsCons(x, a');
      if IsSpace(x) {
        assert Words([x] + t) == wa + wb;
        assert Words(a + [c] + b) == Words(a) + Words(b);
      } else if |a'| > 0 && !IsSpace(a'[0]) {
        assert t[0] == a'[0];
        MergeFirst([x], wa, wb);
        assert Words(a + [c] + b) == Words(a) + Words(b);
      } else {
        assert |t| > 0 && IsSpace(t[0]) by {
          if |a'| == 0 { assert t[0] == c; } else { assert t[0] == a'[0]; }
        }
        assert Words([x] + t) == [[x]] + (wa + wb);
        assert Words([x] + a') == [[x]] + wa;
        ConsAppend([x], wa, wb);
      }
    }
  }

  lemma ConsAppend<T>(p: T, xs: seq<T>, ys: seq<T>)
    ensures [p] + (xs + ys) == [p] + xs + ys
  {
  }

  /** Gluing a prefix onto the first of a list of pieces commutes with
      appending more pieces. */
  lemma MergeFirst<T>(p: seq<T>, xs: seq<seq<T>>, ys: seq<seq<T>>)
    requires |xs| > 0
    ensures [p + (xs + ys)[0]] + (xs + ys)[1..] == [p + xs[0]] + xs[1..] + ys
  {
    assert (xs + ys)[1..] == xs[1..] + ys;
  }

  /** The words hold exactly the non-whitespace characters, in order. */
  lemma {:induction false} WordsKeepNonSpace(s: string)
    ensures Flatten(Words(s)) == Filter(s, c => !IsSpace(c))
    decreases |s|
  {
    if |s| > 0 {
      var t := s[1..];
      WordsKeepNonSpace(t);
      FilterCons(s, c => !IsSpace(c));
      var rest := Words(t);
      if !IsSpace(s[0]) {
        if |t| > 0 && !IsSpace(t[0]) {
          FlattenMergeFirst(s[0], rest);
        } else {
          FlattenCons([s[0]], rest);
        }
      }
    }
  }

  /** `" ".join(s.split())`: runs of whitespace become one space and the
      ends are trimmed. */
  function Collapse(s: string): (r: string)
    ensures |r| > 0 ==> !IsSpace(r[0]) && !IsSpace(r[|r| - 1])
  {
    var ws := Words(s);
    JoinEnds(ws, ' ');
    Join(ws, ' ')
  }

  /** Joining whitespace-free pieces with a non-whitespace separator leaves
      no whitespace. */
  lemma {:induction false} JoinNoSpace(parts: seq<string>, sep: char)
    requires !IsSpace(sep)
    requires forall p :: p in parts ==> forall c :: c in p ==> !IsSpace(c)
    ensures forall c :: c in Join(parts, sep) ==> !IsSpace(c)
    decreases |parts|
  {
    if |parts| > 0 {
      assert parts[0] in parts;
    }
    if |parts| > 1 {
      assert forall p :: p in parts[1..] ==> p in parts;
      JoinNoSpace(parts[1..], sep);
      assert Join(parts, sep) == parts[0] + [sep] + Join(parts[1..], sep);
    }
  }

  /** A join of words starts and ends with a word character. */
  lemma {:induction false} JoinEnds(ws: seq<string>, sep: char)
    requires forall w :: w in ws ==> |w| > 0 && forall c :: c in w ==> !IsSpace(c)
    ensures var j := Join(ws, sep);
            |ws| > 0 ==> |j| > 0 && j[0] == ws[0][0] && j[|j| - 1] == ws[|ws| - 1][|ws[|ws| - 1]| - 1]
    decreases |ws|
  {
    if |ws| > 0 {
      assert ws[0] in ws;
    }
    if |ws| > 1 {
      var t := Join(ws[1..], sep);
      assert forall w :: w in ws[1..] ==> w in ws;
      JoinEnds(ws[1..], sep);
      assert Join(ws, sep) == ws[0] + [sep] + t;
      assert ws[1..][|ws| - 2] == ws[|ws| - 1];
    }
  }

  /** Splitting a space-join of words gives back the words. */
  lemma {:induction false} WordsOfJoin(ws: seq<string>)
    requires forall w :: w in ws ==> |w| > 0 && forall c :: c in w ==> !IsSpace(c)
    ensures Words(Join(ws, ' ')) == ws
    decreases |ws|
  {
    if |ws| > 0 {
      assert ws[0] in ws;
      WordsOfWord(ws[0]);
      if |ws| > 1 {
        assert forall w :: w in ws[1..] ==> w in ws;
        WordsOfJoin(ws[1..]);
        WordsSplitAtSpace(ws[0], ' ', Join(ws[1..], ' '));
        assert [ws[0]] + ws[1..] == ws;
      }
    }
  }

  /** Collapsing keeps the words and changes nothing more when repeated. */
  lemma CollapseKeepsWords(s: string)
    ensures Words(Collapse(s)) == Words(s)
    ensures Collapse(Collapse(s)) == Collapse(s)
  {
    WordsOfJoin(Words(s));
  }

  /** Every whitespace character is a single space between two
      non-whitespace characters. */
  predicate SingleSpaced(s: string) {
    forall k :: 0 <= k < |s| && IsSpace(s[k]) ==>
      s[k] == ' ' && 0 < k < |s| - 1 && !IsSpace(s[k - 1]) && !IsSpace(s[k + 1])
  }

  /** A word, a space and a single-spaced text starting with a word
      character make a single-spaced text. */
  lemma SingleSpacedGlue(w: string, t: string)
    requires |w| > 0 && forall c :: c in w ==> !IsSpace(c)
    requires |t| > 0 && !IsSpace(t[0]) && SingleSpaced(t)
    ensures SingleSpaced(w + [' '] + t)
  {
    var j := w + [' '] + t;
    assert forall k :: 0 <= k < |w| ==> j[k] == w[k] && w[k] in w;
    assert forall m :: 0 <= m < |t| ==> j[|w| + 1 + m] == t[m];
    forall k | 0 <= k < |j| && IsSpace(j[k])
      ensures j[k] == ' ' && 0 < k < |j| - 1 && !IsSpace(j[k - 1]) && !IsSpace(j[k + 1])
    {
      if k > |w| {
        var m := k - |w| - 1;
        assert j[k] == t[m] && j[k - 1] == t[m - 1] && j[k + 1] == t[m + 1];
      }
    }
  }

  /** A space-join of words is single-spaced. */
  lemma {:induction false} JoinSpaces(ws: seq<string>)
    requires forall w :: w in ws ==> |w| > 0 && forall c :: c in w ==> !IsSpace(c)
    ensures SingleSpaced(Join(ws, ' '))
    decreases |ws|
  {
    var j := Join(ws, ' ');
    if |ws| == 1 {
      assert ws[0] in ws;
      assert j == ws[0];
      forall k | 0 <= k < |j| ensures !IsSpace(j[k]) {
        assert j[k] in ws[0];
      }
    } else if |ws| > 1 {
      assert ws[0] in ws;
      assert ws[1..][0] in ws;
      assert forall v :: v in ws[1..] ==> v in ws;
      JoinSpaces(ws[1..]);
      JoinEnds(ws[1..], ' ');
      SingleSpacedGlue(ws[0], Join(ws[1..], ' '));
    }
  }

  /** The text left by `Collapse` has single spaces between words and no
      other whitespace. */
  lemma CollapseSpaces(s: string)
    ensures SingleSpaced(Collapse(s))
  {
    JoinSpaces(Words(s));
  }

  /** `a` is obtained from `b` by deleting elements, keeping the order. */
  predicate Subsequence<T(==)>(a: seq<T>, b: seq<T>)
    decreases |b|
  {
    if |a| == 0 then true
    else if |b| == 0 then false
    else (a[0] == b[0] && Subsequence(a[1..], b[1..])) || Subsequence(a, b[1..])
  }

  /** Python's `filter(p, s)` on a list. */
  function Filter<T(==,!new)>(s: seq<T>, p: T -> bool): (r: seq<T>)
    ensures |r| <= |s|
    ensures forall x :: x in r <==> x in s && p(x)
    ensures Subsequence(r, s)
    decreases |s|
  {
    if |s| == 0 then []
    else
      var rest := Filter(s[1..], p);
      if p(s[0]) then
        assert ([s[0]] + rest)[1..] == rest;
        [s[0]] + rest
      else rest
  }

  /** Each element the predicate accepts is kept as often as it occurs, and
      the others not at all. */
  lemma {:induction false} FilterMultiplicity<T(!new)>(s: seq<T>, p: T -> bool)
    ensures forall x :: multiset(Filter(s, p))[x] == if p(x) then multiset(s)[x] else 0
    decreases |s|
  {
    if |s| > 0 {
      FilterMultiplicity(s[1..], p);
      assert s == [s[0]] + s[1..];
    }
  }

  /** Filtering a non-empty list, one element at a time. */
  lemma FilterCons<T(!new)>(s: seq<T>, p: T -> bool)
    requires |s| > 0
    ensures Filter(s, p) == (if p(s[0]) then [s[0]] else []) + Filter(s[1..], p)
  {
  }

  /** Filtering an already filtered list changes nothing. */
  lemma {:induction false} FilterIdempotent<T(!new)>(s: seq<T>, p: T -> bool)
    ensures Filter(Filter(s, p), p) == Filter(s, p)
    decreases |s|
  {
    if |s| > 0 {
      FilterIdempotent(s[1..], p);
      var rest := Filter(s[1..], p);
      if p(s[0]) {
        assert ([s[0]] + rest)[1..] == rest;
      }
    }
  }

  /** Python's `list(itertools.chain(*groups))`. */
  function Flatten<T>(groups: seq<seq<T>>): (r: seq<T>)
    decreases |groups|
  {
    if |groups| == 0 then [] else Flatten(groups[..|groups| - 1]) + groups[|groups| - 1]
  }

  /** Flattening after one more leading group. */
  lemma {:induction false} FlattenCons<T>(g: seq<T>, groups: seq<seq<T>>)
    ensures Flatten([g] + groups) == g + Flatten(groups)
    decreases |groups|
  {
    if |groups| > 0 {
      var n := |groups| - 1;
      assert ([g] + groups)[..n + 1] == [g] + groups[..n];
      FlattenCons(g, groups[..n]);
    }
  }

  /** Gluing an element onto the first group puts it first in the
      flattened list. */
  lemma FlattenMergeFirst<T>(x: T, groups: seq<seq<T>>)
    requires |groups| > 0
    ensures Flatten([[x] + groups[0]] + groups[1..]) == [x] + Flatten(groups)
  {
    FlattenCons([x] + groups[0], groups[1..]);
    FlattenCons(groups[0], groups[1..]);
    assert [groups[0]] + groups[1..] == groups;
    ConsAppend(x, groups[0], Flatten(groups[1..]));
  }

  /** Flattening at most two groups concatenates them. */
  lemma FlattenPair<T>(groups: seq<seq<T>>)
    requires |groups| <= 2
    ensures Flatten(groups) ==
              if |groups| == 0 then [] else if |groups| == 1 then groups[0] else groups[0] + groups[1]
  {
    if |groups| == 2 {
      assert groups[..1] == [groups[0]];
    }
  }

  /** Every element of every group is in the flattened list, and nothing
      else is. */
  lemma {:induction false} FlattenMembers<T>(groups: seq<seq<T>>, x: T)
    ensures x in Flatten(groups) <==> exists i :: 0 <= i < |groups| && x in groups[i]
    decreases |groups|
  {
    if |groups| > 0 {
      var n := |groups| - 1;
      FlattenMembers(groups[..n], x);
      assert forall i :: 0 <= i < n ==> groups[..n][i] == groups[i];
    }
  }
}
