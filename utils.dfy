/**
  The string helpers of namespace Utils (src/utils.h): prefix and suffix
  tests, the file-extension rule for delimiters, the strip family, prefix and
  suffix removal, split, the two joins, replace, reverse and case mapping.
*/
module Utils {
  import opened Values

  datatype Operation = Add | Subtract | Multiply | Divide
  datatype Method = Pearson | Spearman | Kendall

  /** The default pattern of the strip family: " \t\n\v\f\r". */
  const Whitespace: string := " \t\n\U{0B}\U{0C}\r"

  // ---------------------------------------------------------------- operations

  /** The symbol written for an operation in output headers. */
  function GetOperation(op: Operation): (c: char)
    ensures c in "+-*/"
  {
    match op
    case Add => '+'
    case Subtract => '-'
    case Multiply => '*'
    case Divide => '/'
  }

  /** Reads an operation back from its symbol. */
  function OperationOfSymbol(c: char): (r: Option<Operation>)
    ensures r.Some? <==> c in "+-*/"
  {
    if c == '+' then Some(Add)
    else if c == '-' then Some(Subtract)
    else if c == '*' then Some(Multiply)
    else if c == '/' then Some(Divide)
    else None
  }

  /** Each operation has its own symbol, and the symbol gives it back. */
  lemma GetOperationRoundTrip(op: Operation, other: Operation)
    ensures OperationOfSymbol(GetOperation(op)) == Some(op)
    ensures GetOperation(op) == GetOperation(other) ==> op == other
  {
  }

  // ------------------------------------------------------- prefixes, suffixes

  /** true iff t is a suffix of s. */
  predicate SuffixOf(t: string, s: string) {
    |t| <= |s| && s[|s| - |t|..] == t
  }

  /** std::equal over pre and the first |pre| characters of s, front to back. */
  function EqualForward(pre: string, s: string): (b: bool)
    requires |pre| <= |s|
    ensures b <==> pre == s[..|pre|]
  {
    if pre == [] then true
    else pre[0] == s[0] && EqualForward(pre[1..], s[1..])
  }

  /** std::equal over reverse iterators: suf against the last |suf|
      characters of s, back to front. */
  function EqualBackward(suf: string, s: string): (b: bool)
    requires |suf| <= |s|
    ensures b <==> suf == s[|s| - |suf|..]
  {
    if suf == [] then true
    else suf[|suf| - 1] == s[|s| - 1] && EqualBackward(suf[..|suf| - 1], s[..|s| - 1])
  }

  /** startsWith: a string shorter than the prefix never starts with it. */
  function StartsWith(s: string, pre: string): (b: bool)
    ensures b <==> pre <= s
    ensures |s| < |pre| ==> !b
  {
    if |s| < |pre| then false else EqualForward(pre, s)
  }

  /** endsWith: a string shorter than the suffix never ends with it. */
  function EndsWith(s: string, suf: string): (b: bool)
    ensures b <==> SuffixOf(suf, s)
    ensures |s| < |suf| ==> !b
  {
    if |s| < |suf| then false else EqualBackward(suf, s)
  }

  /** getDelim: the delimiter implied by the end of a file name. "csv" is
      tested first; no dot is needed; anything else is a FileFormatError. */
  function GetDelim(filename: string): (r: Result<char>)
    ensures r == Ok(',') <==> SuffixOf("csv", filename)
    ensures r == Ok('\t') <==>
              (!SuffixOf("csv", filename) && (SuffixOf("txt", filename) || SuffixOf("tsv", filename)))
    ensures r.Err? <==>
              (!SuffixOf("csv", filename) && !SuffixOf("txt", filename) && !SuffixOf("tsv", filename))
    ensures r.Err? ==> r.error == FileFormatError
  {
    if EndsWith(filename, "csv") then Ok(',')
    else if EndsWith(filename, "txt") || EndsWith(filename, "tsv") then Ok('\t')
    else Err(FileFormatError)
  }

  // -------------------------------------------------------------- strip family

  /** Every character of t occurs in pat. */
  predicate AllIn(t: string, pat: string) {
    forall k :: 0 <= k < |t| ==> t[k] in pat
  }

  /** Position i is the first character of s outside pat. */
  predicate FirstNotOf(s: string, pat: string, i: int) {
    0 <= i < |s| && s[i] !in pat && AllIn(s[..i], pat)
  }

  /** Position e is the last character of s outside pat. */
  predicate LastNotOf(s: string, pat: string, e: int) {
    0 <= e < |s| && s[e] !in pat && AllIn(s[e + 1..], pat)
  }

  /** find_first_not_of(pat, from). */
  function FindFirstNotOf(s: string, pat: string, from: nat): (r: Option<nat>)
    requires from <= |s|
    decreases |s| - from
    ensures r.Some? ==> from <= r.value < |s| && s[r.value] !in pat &&
                        forall k :: from <= k < r.value ==> s[k] in pat
    ensures r.None? ==> forall k :: from <= k < |s| ==> s[k] in pat
  {
    if from == |s| then None
    else if s[from] !in pat then Some(from)
    else FindFirstNotOf(s, pat, from + 1)
  }

  /** find_last_not_of(pat), looking only at positions below end. */
  function FindLastNotOf(s: string, pat: string, end: nat): (r: Option<nat>)
    requires end <= |s|
    ensures r.Some? ==> r.value < end && s[r.value] !in pat &&
                        forall k :: r.value < k < end ==> s[k] in pat
    ensures r.None? ==> forall k :: 0 <= k < end ==> s[k] in pat
  {
    if end == 0 then None
    else if s[end - 1] !in pat then Some(end - 1)
    else FindLastNotOf(s, pat, end - 1)
  }

  /** Before the first character outside pat, every character is in pat. */
  lemma FirstNotOfPrefix(s: string, pat: string, i: int)
    requires FirstNotOf(s, pat, i)
    ensures forall k :: 0 <= k < i ==> s[k] in pat
  {
    var u := s[..i];
    forall k | 0 <= k < i ensures s[k] in pat {
      assert u[k] == s[k];
    }
  }

  /** After the last character outside pat, every character is in pat. */
  lemma LastNotOfSuffix(s: string, pat: string, e: int)
    requires LastNotOf(s, pat, e)
    ensures forall k :: e < k < |s| ==> s[k] in pat
  {
    var u := s[e + 1..];
    forall k | e < k < |s| ensures s[k] in pat {
      assert u[k - e - 1] == s[k];
    }
  }

  /** find_first_not_of(pat) finds exactly the first character outside pat. */
  lemma FindFirstNotOfFinds(s: string, pat: string)
    ensures FindFirstNotOf(s, pat, 0).None? <==> AllIn(s, pat)
    ensures forall i :: FirstNotOf(s, pat, i) <==> FindFirstNotOf(s, pat, 0) == Some(i)
  {
    var r := FindFirstNotOf(s, pat, 0);
    if r.Some? {
      var u := s[..r.value];
      assert AllIn(u, pat) by {
        forall k | 0 <= k < |u| ensures u[k] in pat {
          assert u[k] == s[k];
        }
      }
      forall j | FirstNotOf(s, pat, j) ensures j == r.value {
        FirstNotOfPrefix(s, pat, j);
      }
    }
  }

  /** find_last_not_of(pat) finds exactly the last character outside pat. */
  lemma FindLastNotOfFinds(s: string, pat: string)
    ensures FindLastNotOf(s, pat, |s|).None? <==> AllIn(s, pat)
    ensures forall e :: LastNotOf(s, pat, e) <==> FindLastNotOf(s, pat, |s|) == Some(e)
  {
    var r := FindLastNotOf(s, pat, |s|);
    if r.Some? {
      var u := s[r.value + 1..];
      assert AllIn(u, pat) by {
        forall k | 0 <= k < |u| ensures u[k] in pat {
          assert u[k] == s[r.value + 1 + k];
        }
      }
      forall j | LastNotOf(s, pat, j) ensures j == r.value {
        LastNotOfSuffix(s, pat, j);
      }
    }
  }

  /** The first character outside pat is not after the last one. */
  lemma FirstNotAfterLast(s: string, pat: string, i: int, e: int)
    requires FirstNotOf(s, pat, i) && LastNotOf(s, pat, e)
    ensures i <= e
  {
    LastNotOfSuffix(s, pat, e);
  }

  /** strip as written: "" for an all-pattern string; otherwise from the
      first to the last character outside pat, EXCEPT that when those two
      are the same character the trailing pattern characters are kept. */
  function Strip(s: string, pat: string): (r: string)
    ensures AllIn(s, pat) ==> r == ""
    ensures forall i, e :: FirstNotOf(s, pat, i) && LastNotOf(s, pat, e) ==>
              r == if i == e then s[i..] else s[i..e + 1]
  {
    FindFirstNotOfFinds(s, pat);
    FindLastNotOfFinds(s, pat);
    match FindFirstNotOf(s, pat, 0)
    case None => ""
    case Some(ipos) =>
      var epos := FindLastNotOf(s, pat, |s|).value;
      FirstNotAfterLast(s, pat, ipos, epos);
      if epos == ipos then s[ipos..] else s[ipos..epos + 1]
  }

  /** lstrip: drops exactly the leading characters that are in pat. */
  function LStrip(s: string, pat: string): (r: string)
    ensures AllIn(s, pat) ==> r == ""
    ensures forall i :: FirstNotOf(s, pat, i) ==> r == s[i..]
  {
    FindFirstNotOfFinds(s, pat);
    match FindFirstNotOf(s, pat, 0)
    case None => ""
    case Some(pos) => s[pos..]
  }

  /** rstrip: drops exactly the trailing characters that are in pat. */
  function RStrip(s: string, pat: string): (r: string)
    ensures AllIn(s, pat) ==> r == ""
    ensures forall e :: LastNotOf(s, pat, e) ==> r == s[..e + 1]
  {
    FindLastNotOfFinds(s, pat);
    match FindLastNotOf(s, pat, |s|)
    case None => ""
    case Some(pos) => s[..pos + 1]
  }

  /** A string not made only of pat characters has a first and a last
      character outside pat. */
  lemma NotAllInHasEnds(s: string, pat: string) returns (i: nat, e: nat)
    requires !AllIn(s, pat)
    ensures FirstNotOf(s, pat, i) && LastNotOf(s, pat, e)
  {
    FindFirstNotOfFinds(s, pat);
    FindLastNotOfFinds(s, pat);
    i := FindFirstNotOf(s, pat, 0).value;
    e := FindLastNotOf(s, pat, |s|).value;
  }

  /** lstrip leaves a string whose first character is outside pat, and
      rstrip one whose last character is. */
  lemma StripsLeaveNonPatternEnds(s: string, pat: string)
    ensures LStrip(s, pat) == [] || LStrip(s, pat)[0] !in pat
    ensures RStrip(s, pat) == [] || RStrip(s, pat)[|RStrip(s, pat)| - 1] !in pat
  {
    if !AllIn(s, pat) {
      var i, e := NotAllInHasEnds(s, pat);
    }
  }

  /** After lstrip, the last character outside pat moves down by i. */
  lemma LastNotOfAfterLStrip(s: string, pat: string, i: int, e: int)
    requires FirstNotOf(s, pat, i) && LastNotOf(s, pat, e)
    ensures LastNotOf(s[i..], pat, e - i)
  {
    FirstNotAfterLast(s, pat, i, e);
    assert s[i..][e - i + 1..] == s[e + 1..];
  }

  /** lrmstr: removes rms from the front when it is there. */
  function LRmStr(s: string, rms: string): (r: string)
    ensures rms <= s ==> rms + r == s
    ensures !(rms <= s) ==> r == s
  {
    if StartsWith(s, rms) then s[|rms|..] else s
  }

  /** rrmstr: removes rms from the back when it is there. */
  function RRmStr(s: string, rms: string): (r: string)
    ensures SuffixOf(rms, s) ==> r + rms == s
    ensures !SuffixOf(rms, s) ==> r == s
  {
    if EndsWith(s, rms) then s[..|s| - |rms|] else s
  }

  /** Removing a prefix that was just added gives the string back. */
  lemma {:induction false} LRmStrAfterPrefix(rms: string, t: string)
    ensures LRmStr(rms + t, rms) == t
  {
    assert rms <= rms + t;
    var r := LRmStr(rms + t, rms);
    assert rms + r == rms + t;
    assert r == (rms + r)[|rms|..] == (rms + t)[|rms|..] == t;
  }

  /** Removing a suffix that was just added gives the string back. */
  lemma {:induction false} RRmStrAfterSuffix(t: string, rms: string)
    ensures RRmStr(t + rms, rms) == t
  {
    assert SuffixOf(rms, t + rms) by {
      assert (t + rms)[|t + rms| - |rms|..] == rms;
    }
    var r := RRmStr(t + rms, rms);
    assert r + rms == t + rms;
    assert r == (r + rms)[..|r|] == (t + rms)[..|t|] == t;
  }

  // ---------------------------------------------- strip against lstrip/rstrip

  /** On a string made only of pat characters, strip, lstrip and rstrip
      all give "". */
  lemma StripAllPattern(s: string, pat: string)
    requires AllIn(s, pat)
    ensures Strip(s, pat) == LStrip(s, pat) == RStrip(s, pat) == ""
  {
  }

  /** strip as written agrees with lstrip when exactly one character lies
      outside pat. */
  lemma StripOneOutside(s: string, pat: string, i: int)
    requires FirstNotOf(s, pat, i) && LastNotOf(s, pat, i)
    ensures Strip(s, pat) == LStrip(s, pat)
  {
  }

  /** strip as written is rstrip after lstrip when two or more characters
      lie outside pat. */
  lemma StripTwoOutside(s: string, pat: string, i: int, e: int)
    requires FirstNotOf(s, pat, i) && LastNotOf(s, pat, e) && i != e
    ensures Strip(s, pat) == RStrip(LStrip(s, pat), pat)
  {
    LastNotOfAfterLStrip(s, pat, i, e);
    assert s[i..][..e - i + 1] == s[i..e + 1];
  }

  /** strip as its documentation describes it: cut at the first and at the
      last character outside pat in every case. */
  function StripBothEnds(s: string, pat: string): (r: string)
    ensures AllIn(s, pat) ==> r == ""
    ensures forall i, e :: FirstNotOf(s, pat, i) && LastNotOf(s, pat, e) ==> r == s[i..e + 1]
  {
    FindFirstNotOfFinds(s, pat);
    FindLastNotOfFinds(s, pat);
    match FindFirstNotOf(s, pat, 0)
    case None => ""
    case Some(ipos) =>
      var epos := FindLastNotOf(s, pat, |s|).value;
      FirstNotAfterLast(s, pat, ipos, epos);
      s[ipos..epos + 1]
  }

  /** The corrected strip is rstrip after lstrip, on every input. */
  lemma StripBothEndsIsRStripOfLStrip(s: string, pat: string)
    ensures StripBothEnds(s, pat) == RStrip(LStrip(s, pat), pat)
  {
    if !AllIn(s, pat) {
      var i, e := NotAllInHasEnds(s, pat);
      FindFirstNotOfFinds(s, pat);
      FindLastNotOfFinds(s, pat);
      LastNotOfAfterLStrip(s, pat, i, e);
      assert s[i..][..e - i + 1] == s[i..e + 1];
    }
  }

  /** The input that separates the two: " a " keeps its trailing blank. */
  lemma StripKeepsTrailingBlank()
    ensures Strip(" a ", Whitespace) == "a "
    ensures StripBothEnds(" a ", Whitespace) == "a"
  {
    var s := " a ";
    assert FirstNotOf(s, Whitespace, 1) by { assert s[..1] == " "; }
    assert LastNotOf(s, Whitespace, 1) by { assert s[2..] == " "; }
  }

  // ---------------------------------------------------------------- split

  /** No character of t occurs in sep. */
  predicate NoneIn(t: string, sep: string) {
    forall k :: 0 <= k < |t| ==> t[k] !in sep
  }

  /** Number of characters of s that occur in sep. */
  function CountIn(s: string, sep: string): nat {
    if s == [] then 0 else (if s[0] in sep then 1 else 0) + CountIn(s[1..], sep)
  }

  /** The fields of s between characters of sep, read one character at a
      time: the reference meaning of split for a non-empty string. */
  function Fields(s: string, sep: string): (fs: seq<string>)
    ensures |fs| >= 1
  {
    if s == [] then [""]
    else
      var rest := Fields(s[1..], sep);
      if s[0] in sep then [""] + rest else [[s[0]] + rest[0]] + rest[1..]
  }

  /** A string with k separator characters has k + 1 fields. */
  lemma {:induction false} FieldsCount(s: string, sep: string)
    ensures |Fields(s, sep)| == CountIn(s, sep) + 1
  {
    if s != [] {
      FieldsCount(s[1..], sep);
    }
  }

  /** No field contains a separator character. */
  lemma {:induction false} FieldsAvoidSeparators(s: string, sep: string)
    ensures forall k :: 0 <= k < |Fields(s, sep)| ==> NoneIn(Fields(s, sep)[k], sep)
  {
    if s != [] {
      FieldsAvoidSeparators(s[1..], sep);
    }
  }

  /** A leading separator gives an empty first field, a trailing one an
      empty last field. */
  lemma {:induction false} FieldsAtEdges(s: string, sep: string)
    requires s != []
    ensures s[0] in sep ==> Fields(s, sep)[0] == ""
    ensures s[|s| - 1] in sep ==> Fields(s, sep)[|Fields(s, sep)| - 1] == ""
  {
    if |s| > 1 {
      FieldsAtEdges(s[1..], sep);
      assert s[1..][|s| - 2] == s[|s| - 1];
    }
  }

  /** Consecutive separators at p and p + 1 enclose an empty field: the one
      numbered by the separators up to and including p. */
  lemma {:induction false} FieldsBetweenSeparators(s: string, sep: string, p: nat)
    requires p + 1 < |s| && s[p] in sep && s[p + 1] in sep
    ensures CountIn(s[..p + 1], sep) < |Fields(s, sep)| && Fields(s, sep)[CountIn(s[..p + 1], sep)] == ""
  {
    var rest := Fields(s[1..], sep);
    if p == 0 {
      FieldsAtEdges(s[1..], sep);
      assert s[..1][1..] == [];
    } else {
      FieldsBetweenSeparators(s[1..], sep, p - 1);
      assert s[..p + 1][1..] == s[1..][..p];
      if s[0] !in sep {
        CountInPositive(s[1..][..p], sep, p - 1);
      }
    }
  }

  /** A string holding a separator counts at least one. */
  lemma {:induction false} CountInPositive(t: string, sep: string, q: nat)
    requires q < |t| && t[q] in sep
    ensures CountIn(t, sep) >= 1
  {
    if q > 0 {
      CountInPositive(t[1..], sep, q - 1);
    }
  }

  /** find_first_of(sep, from). */
  function FindFirstOf(s: string, sep: string, from: nat): (r: Option<nat>)
    requires from <= |s|
    decreases |s| - from
    ensures r.Some? ==> from <= r.value < |s| && s[r.value] in sep &&
                        forall k :: from <= k < r.value ==> s[k] !in sep
    ensures r.None? ==> forall k :: from <= k < |s| ==> s[k] !in sep
  {
    if from == |s| then None
    else if s[from] in sep then Some(from)
    else FindFirstOf(s, sep, from + 1)
  }

  /** With no separator from position from on, the rest is a single field. */
  lemma {:induction false} FieldsOfTail(s: string, sep: string, from: nat)
    requires from <= |s|
    requires forall k :: from <= k < |s| ==> s[k] !in sep
    ensures Fields(s[from..], sep) == [s[from..]]
    decreases |s| - from
  {
    if from < |s| {
      FieldsOfTail(s, sep, from + 1);
      assert s[from..][1..] == s[from + 1..];
      assert [s[from]] + s[from + 1..] == s[from..];
    }
  }

  /** The first separator at or after position from ends the first field
      of the rest. */
  lemma {:induction false} FieldsUpTo(s: string, sep: string, from: nat, c: nat)
    requires from <= c < |s| && s[c] in sep
    requires forall k :: from <= k < c ==> s[k] !in sep
    ensures Fields(s[from..], sep) == [s[from..c]] + Fields(s[c + 1..], sep)
    decreases c - from
  {
    assert s[from..][0] == s[from];
    assert s[from..][1..] == s[from + 1..];
    if from < c {
      FieldsUpTo(s, sep, from + 1, c);
      assert [s[from]] + s[from + 1..c] == s[from..c];
    } else {
      assert s[from..c] == [];
    }
  }

  /** The fields still to come once the separator at las has been read. */
  function FieldsAfter(s: string, sep: string, las: Option<nat>): seq<string>
    requires las.Some? ==> las.value < |s|
  {
    if las.Some? then Fields(s[las.value + 1..], sep) else []
  }

  /** One round of split's loop: appends the field after the separator at
      l to vec and finds the next separator, if any. */
  method SplitNext(s: string, sep: string, vec: seq<string>, l: nat) returns (vec': seq<string>, cur: Option<nat>)
    requires l < |s|
    ensures cur.Some? ==> l < cur.value < |s|
    ensures vec' + FieldsAfter(s, sep, cur) == vec + FieldsAfter(s, sep, Some(l))
  {
    cur := FindFirstOf(s, sep, l + 1);
    var field;
    if cur.None? {
      FieldsOfTail(s, sep, l + 1);
      field := s[l + 1..];
    } else {
      FieldsUpTo(s, sep, l + 1, cur.value);
      if cur.value - l == 1 {
        field := "";
      } else {
        field := s[l + 1..cur.value];
      }
    }
    vec' := vec + [field];
    AppendAssoc(vec, [field], FieldsAfter(s, sep, cur));
  }


  /** The first field of a non-empty s, and the separator that ends it. */
  method SplitFirst(s: string, sep: string) returns (vec: seq<string>, las: Option<nat>)
    requires s != []
    ensures las.Some? ==> las.value < |s|
    ensures vec + FieldsAfter(s, sep, las) == Fields(s, sep)
  {
    las := FindFirstOf(s, sep, 0);
    assert s[0..] == s;
    var field;
    if las.None? {
      FieldsOfTail(s, sep, 0);
      field := s;
    } else {
      FieldsUpTo(s, sep, 0, las.value);
      assert s[0..las.value] == s[..las.value];
      if las.value == 0 {
        field := "";
      } else {
        field := s[..las.value];
      }
    }
    vec := [field];
  }

  /** split: clears the output, gives nothing for "", and otherwise one
      field per separator-delimited piece, empty ones included. */
  method Split(s: string, sep: string) returns (vec: seq<string>)
    ensures s == [] ==> vec == []
    ensures s != [] ==> vec == Fields(s, sep)
  {
    vec := [];
    if s == [] {
      return;
    }
    var las;
    vec, las := SplitFirst(s, sep);
    // the source's test `las + 1 == npos` can never hold, as las < |s|
    while las.Some?
      invariant las.Some? ==> las.value < |s|
      invariant vec + FieldsAfter(s, sep, las) == Fields(s, sep)
      decreases if las.Some? then |s| - las.value else 0
    {
      vec, las := SplitNext(s, sep, vec, las.value);
    }
    assert vec + [] == vec;
  }

  // ---------------------------------------------------------------- join

  /** The elements of vec with sep between neighbours. */
  function JoinWith(vec: seq<string>, sep: string): string {
    if |vec| == 0 then ""
    else if |vec| == 1 then vec[0]
    else vec[0] + sep + JoinWith(vec[1..], sep)
  }

  lemma {:induction false} JoinWithSnoc(vec: seq<string>, x: string, sep: string)
    requires |vec| >= 1
    ensures JoinWith(vec + [x], sep) == JoinWith(vec, sep) + sep + x
  {
    if |vec| > 1 {
      assert (vec + [x])[1..] == vec[1..] + [x];
      JoinWithSnoc(vec[1..], x, sep);
    } else {
      assert |vec + [x]| == 2 && (vec + [x])[1..] == [x];
    }
  }

  /** Joining the fields cut at a single character c gives the string back
      (split gives [] for "", which joins to "" as well). */
  lemma {:induction false} JoinSplitRoundTrip(s: string, c: char)
    ensures JoinWith(Fields(s, [c]), [c]) == s
  {
    if s != [] {
      var rest := Fields(s[1..], [c]);
      JoinSplitRoundTrip(s[1..], c);
      if s[0] == c {
        assert Fields(s, [c]) == [""] + rest;
        assert ([""] + rest)[1..] == rest;
      } else {
        assert s[0] !in [c];
        var fs := [[s[0]] + rest[0]] + rest[1..];
        assert Fields(s, [c]) == fs;
        if |rest| >= 2 {
          assert fs[1..] == rest[1..];
          assert JoinWith(rest, [c]) == rest[0] + [c] + JoinWith(rest[1..], [c]);
        }
      }
    }
  }

  /** join(vec, sep), the template: the first element, then sep and the
      next element for each further element. */
  method Join(vec: seq<string>, sep: string) returns (s: string)
    ensures s == JoinWith(vec, sep)
  {
    if |vec| == 0 {
      return "";
    }
    s := vec[0];
    if |vec| == 1 {
      return;
    }
    var i := 1;
    while i < |vec|
      invariant 1 <= i <= |vec|
      invariant s == JoinWith(vec[..i], sep)
    {
      assert vec[..i + 1] == vec[..i] + [vec[i]];
      JoinWithSnoc(vec[..i], vec[i], sep);
      s := s + sep + vec[i];
      i := i + 1;
    }
    assert vec[..i] == vec;
  }

  /** join(vec, ret, sep), the out-parameter form: leaves ret alone for no
      elements, OVERWRITES it with the one element, and APPENDS the joined
      elements to it for two or more. */
  method JoinInto(vec: seq<string>, ret: string, sep: string) returns (out: string)
    ensures |vec| == 0 ==> out == ret
    ensures |vec| == 1 ==> out == vec[0]
    ensures |vec| >= 2 ==> out == ret + JoinWith(vec, sep)
  {
    out := ret;
    if |vec| == 0 {
      return;
    }
    if |vec| == 1 {
      out := vec[0];
      return;
    }
    var i := 0;
    while i < |vec| - 1
      invariant 0 <= i <= |vec| - 1
      invariant out == ret + Terminated(vec[..i], sep)
    {
      assert vec[..i + 1][..i] == vec[..i];
      out := out + (vec[i] + sep);
      i := i + 1;
    }
    TerminatedThenLast(vec[..i], vec[i], sep);
    assert vec[..i] + [vec[i]] == vec;
    out := out + vec[|vec| - 1];
  }

  /** Each element followed by sep, as the out-parameter join writes them. */
  function Terminated(vec: seq<string>, sep: string): string {
    if |vec| == 0 then "" else Terminated(vec[..|vec| - 1], sep) + (vec[|vec| - 1] + sep)
  }

  lemma {:induction false} TerminatedThenLast(vec: seq<string>, x: string, sep: string)
    ensures Terminated(vec, sep) + x == JoinWith(vec + [x], sep)
    decreases |vec|
  {
    if |vec| > 0 {
      var init := vec[..|vec| - 1];
      var last := vec[|vec| - 1];
      TerminatedThenLast(init, last, sep);
      assert init + [last] == vec;
      JoinWithSnoc(vec, x, sep);
    }
  }

  // ---------------------------------------------------------------- replace

  /** pat occurs in s starting at position k. */
  predicate OccursAt(s: string, pat: string, k: int) {
    0 <= k && k + |pat| <= |s| && s[k..k + |pat|] == pat
  }

  /** std::string::find(pat, from). */
  function Find(s: string, pat: string, from: nat): (r: Option<nat>)
    requires from <= |s|
    decreases |s| - from
    ensures r.Some? ==> from <= r.value && OccursAt(s, pat, r.value) &&
                        forall k :: from <= k < r.value ==> !OccursAt(s, pat, k)
    ensures r.None? ==> forall k :: from <= k <= |s| ==> !OccursAt(s, pat, k)
  {
    if from + |pat| > |s| then None
    else if s[from..from + |pat|] == pat then Some(from)
    else Find(s, pat, from + 1)
  }

  /** The reference meaning of replace, read from position from on: scan
      left to right; where pat starts, emit des and jump past pat;
      otherwise copy one character. Occurrences replaced therefore never
      overlap. */
  function ReplaceFrom(s: string, pat: string, des: string, from: nat): string
    requires |pat| > 0
    decreases |s| - from
  {
    if from >= |s| then []
    else if OccursAt(s, pat, from) then des + ReplaceFrom(s, pat, des, from + |pat|)
    else [s[from]] + ReplaceFrom(s, pat, des, from + 1)
  }

  function ReplaceAll(s: string, pat: string, des: string): string
    requires |pat| > 0
  {
    ReplaceFrom(s, pat, des, 0)
  }

  /** Everything before the next occurrence at c is copied, then des. */
  lemma {:induction false} ReplaceFromSkipsTo(s: string, pat: string, des: string, from: nat, c: nat)
    requires |pat| > 0 && from <= c && OccursAt(s, pat, c)
    requires forall k :: from <= k < c ==> !OccursAt(s, pat, k)
    ensures ReplaceFrom(s, pat, des, from) == s[from..c] + des + ReplaceFrom(s, pat, des, c + |pat|)
    decreases c - from
  {
    if from < c {
      ReplaceFromCopies(s, pat, des, from);
      ReplaceFromSkipsTo(s, pat, des, from + 1, c);
      ConsAppend3(s[from], s[from + 1..c], des, ReplaceFrom(s, pat, des, c + |pat|));
      assert [s[from]] + s[from + 1..c] == s[from..c];
    }
  }

  /** A position where pat does not start is copied. */
  lemma ReplaceFromCopies(s: string, pat: string, des: string, from: nat)
    requires |pat| > 0 && from < |s| && !OccursAt(s, pat, from)
    ensures ReplaceFrom(s, pat, des, from) == [s[from]] + ReplaceFrom(s, pat, des, from + 1)
  {
  }

  lemma ConsAppend3<T>(x: T, a: seq<T>, b: seq<T>, c: seq<T>)
    ensures [x] + (a + b + c) == ([x] + a) + b + c
  {
  }

  /** Without a further occurrence the rest is copied unchanged. */
  lemma {:induction false} ReplaceFromNoMatch(s: string, pat: string, des: string, from: nat)
    requires |pat| > 0 && from <= |s|
    requires forall k :: from <= k <= |s| ==> !OccursAt(s, pat, k)
    ensures ReplaceFrom(s, pat, des, from) == s[from..]
    decreases |s| - from
  {
    if from < |s| {
      assert !OccursAt(s, pat, from);
      ReplaceFromNoMatch(s, pat, des, from + 1);
      assert [s[from]] + s[from + 1..] == s[from..];
    }
  }

  /** A string in which pat never occurs comes back unchanged. */
  lemma ReplaceWithoutOccurrence(s: string, pat: string, des: string)
    requires |pat| > 0
    requires forall k :: 0 <= k <= |s| ==> !OccursAt(s, pat, k)
    ensures ReplaceAll(s, pat, des) == s
  {
    ReplaceFromNoMatch(s, pat, des, 0);
  }

  /** Replacing pat by itself changes nothing. */
  lemma {:induction false} ReplaceBySelfFrom(s: string, pat: string, from: nat)
    requires |pat| > 0 && from <= |s|
    ensures ReplaceFrom(s, pat, pat, from) == s[from..]
    decreases |s| - from
  {
    if from < |s| {
      if OccursAt(s, pat, from) {
        ReplaceBySelfFrom(s, pat, from + |pat|);
        assert s[from..from + |pat|] + s[from + |pat|..] == s[from..];
      } else {
        ReplaceBySelfFrom(s, pat, from + 1);
        assert [s[from]] + s[from + 1..] == s[from..];
      }
    }
  }

  lemma ReplaceBySelf(s: string, pat: string)
    requires |pat| > 0
    ensures ReplaceAll(s, pat, pat) == s
  {
    ReplaceBySelfFrom(s, pat, 0);
  }

  /** Every replacement emitted is des and every copied character is one
      outside an occurrence: the number of characters produced. */
  lemma ReplaceStep(s: string, pat: string, des: string, ret: string, las: nat, c: nat, ret': string)
    requires |pat| > 0 && las <= c && OccursAt(s, pat, c)
    requires forall k :: las <= k < c ==> !OccursAt(s, pat, k)
    requires ret' == (ret + s[las..c]) + des
    ensures ret + ReplaceFrom(s, pat, des, las) == ret' + ReplaceFrom(s, pat, des, c + |pat|)
  {
    ReplaceFromSkipsTo(s, pat, des, las, c);
  }

  /** replace: the loop over find(pat, cur). An empty pat would never
      advance cur, so the source's loop would not end; it is excluded. */
  method Replace(s: string, pat: string, des: string) returns (ret: string)
    requires |pat| > 0
    ensures ret == ReplaceAll(s, pat, des)
  {
    ret := "";
    var las, cur := 0, 0;
    var found := Find(s, pat, cur);
    ghost var all := ReplaceAll(s, pat, des);
    while found.Some?
      invariant las == cur <= |s| && found == Find(s, pat, cur)
      invariant ret + ReplaceFrom(s, pat, des, las) == all
      decreases |s| - cur
    {
      ghost var ret0, las0 := ret, las;
      cur := found.value;
      ret := ret + s[las..cur];
      ret := ret + des;
      ReplaceStep(s, pat, des, ret0, las0, cur, ret);
      cur := cur + |pat|;
      las := cur;
      found := Find(s, pat, cur);
    }
    ReplaceFromNoMatch(s, pat, des, las);
    // the source's test `las != npos` always holds here
    ret := ret + s[las..];
  }

  // ------------------------------------------------------- reverse and case

  /** reverse: the characters of s in the opposite order. */
  function Reverse(s: string): (r: string)
    ensures |r| == |s|
    ensures forall k :: 0 <= k < |s| ==> r[k] == s[|s| - 1 - k]
  {
    if s == [] then [] else Reverse(s[1..]) + [s[0]]
  }

  /** Reversing twice gives the string back. */
  lemma {:induction false} ReverseInvolution(s: string)
    ensures Reverse(Reverse(s)) == s
  {
    var rr := Reverse(Reverse(s));
    assert forall k | 0 <= k < |s| :: rr[k] == s[k];
  }

  /** toupper and tolower in the "C" locale: only ASCII letters change. */
  function UpperChar(c: char): char {
    if 'a' <= c <= 'z' then (c as int - 32) as char else c
  }

  function LowerChar(c: char): char {
    if 'A' <= c <= 'Z' then (c as int + 32) as char else c
  }

  /** Case mappings forget the case they were applied to. */
  lemma CaseMappingsAbsorb(c: char)
    ensures UpperChar(LowerChar(c)) == UpperChar(c)
    ensures LowerChar(UpperChar(c)) == LowerChar(c)
  {
  }

  /** str2upper: every character mapped through toupper, in place. */
  method StrToUpper(s: string) returns (t: string)
    ensures |t| == |s| && forall k :: 0 <= k < |s| ==> t[k] == UpperChar(s[k])
  {
    t := s;
    for i := 0 to |t|
      invariant |t| == |s|
      invariant forall k :: 0 <= k < i ==> t[k] == UpperChar(s[k])
      invariant forall k :: i <= k < |s| ==> t[k] == s[k]
    {
      t := t[i := UpperChar(t[i])];
    }
  }

  /** str2lower: every character mapped through tolower, in place. */
  method StrToLower(s: string) returns (t: string)
    ensures |t| == |s| && forall k :: 0 <= k < |s| ==> t[k] == LowerChar(s[k])
  {
    t := s;
    for i := 0 to |t|
      invariant |t| == |s|
      invariant forall k :: 0 <= k < i ==> t[k] == LowerChar(s[k])
      invariant forall k :: i <= k < |s| ==> t[k] == s[k]
    {
      t := t[i := LowerChar(t[i])];
    }
  }
}
