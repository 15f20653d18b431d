/** The JavaScript string built-ins the adapters rely on:
    `String.prototype.includes`, `toLowerCase` (on ASCII letters) and
    `split` with a one-character separator. */
module Strings {
  import opened Wrappers

  /** `needle` occurs in `hay` starting at index `i`. */
  ghost predicate OccursAt(hay: string, needle: string, i: int)
  {
    0 <= i && i + |needle| <= |hay| && hay[i..i + |needle|] == needle
  }

  /** `hay.startsWith(needle)`. */
  predicate StartsWith(hay: string, needle: string)
  {
    |needle| <= |hay| && hay[..|needle|] == needle
  }

  /** `hay.includes(needle)`: is `needle` a substring of `hay`? */
  function Includes(hay: string, needle: string): (b: bool)
    decreases |hay|
  {
    if StartsWith(hay, needle) then true
    else if hay == [] then false
    else Includes(hay[1..], needle)
  }

  /** `Includes` is exactly "there is an index where the needle occurs". */
  lemma {:induction false} IncludesIff(hay: string, needle: string)
    ensures Includes(hay, needle) <==> exists i :: OccursAt(hay, needle, i)
    decreases |hay|
  {
    if StartsWith(hay, needle) {
      assert OccursAt(hay, needle, 0);
    } else if hay == [] {
      assert forall i :: !OccursAt(hay, needle, i);
    } else {
      IncludesIff(hay[1..], needle);
      if Includes(hay[1..], needle) {
        var i :| OccursAt(hay[1..], needle, i);
        assert hay[i + 1..i + 1 + |needle|] == hay[1..][i..i + |needle|];
        assert OccursAt(hay, needle, i + 1);
      } else {
        forall i | OccursAt(hay, needle, i) ensures false {
          assert i != 0;
          assert hay[1..][i - 1..i - 1 + |needle|] == hay[i..i + |needle|];
          assert OccursAt(hay[1..], needle, i - 1);
        }
      }
    }
  }

  /** `toLowerCase` on one character, for the ASCII range. */
  function LowerChar(c: char): (d: char)
    ensures 'A' <= c <= 'Z' ==> d as int == c as int + 32
    ensures !('A' <= c <= 'Z') ==> d == c
  {
    if 'A' <= c <= 'Z' then (c as int + 32) as char else c
  }

  /** `s.toLowerCase()`, with ASCII case mapping. */
  function ToLower(s: string): (r: string)
    ensures |r| == |s|
    ensures forall i :: 0 <= i < |s| ==> r[i] == LowerChar(s[i])
    decreases |s|
  {
    if s == [] then [] else [LowerChar(s[0])] + ToLower(s[1..])
  }

  /** Index of the first `c` in `s`, or `|s|` if there is none. */
  function IndexOf(s: string, c: char): (i: nat)
    ensures i <= |s|
    ensures i < |s| ==> s[i] == c
    ensures forall j :: 0 <= j < i ==> s[j] != c
    decreases |s|
  {
    if s == [] then 0
    else if s[0] == c then 0
    else 1 + IndexOf(s[1..], c)
  }

  /** `s.split(sep)` for a one-character separator: the maximal pieces
      between occurrences of `sep`, always at least one. */
  function Split(s: string, sep: char): (parts: seq<string>)
    ensures |parts| >= 1
    decreases |s|
  {
    var i := IndexOf(s, sep);
    if i == |s| then [s] else [s[..i]] + Split(s[i + 1..], sep)
  }

  /** `parts.join(sep)`. */
  function Join(parts: seq<string>, sep: char): (s: string)
    decreases |parts|
  {
    if parts == [] then ""
    else if |parts| == 1 then parts[0]
    else parts[0] + [sep] + Join(parts[1..], sep)
  }

  /** Splitting loses nothing: joining the pieces back gives the input,
      and no piece contains the separator. */
  lemma {:induction false} SplitJoin(s: string, sep: char)
    ensures Join(Split(s, sep), sep) == s
    ensures forall k :: 0 <= k < |Split(s, sep)| ==> sep !in Split(s, sep)[k]
    decreases |s|
  {
    var i := IndexOf(s, sep);
    if i < |s| {
      SplitJoin(s[i + 1..], sep);
      assert s == s[..i] + [sep] + s[i + 1..];
      var parts := Split(s, sep);
      assert parts[1..] == Split(s[i + 1..], sep);
      forall k | 0 <= k < |parts| ensures sep !in parts[k] {
        if k > 0 { assert parts[k] == parts[1..][k - 1]; }
      }
    }
  }

  /** A piece free of the separator splits to itself. */
  lemma SplitNoSep(s: string, sep: char)
    requires sep !in s
    ensures Split(s, sep) == [s]
  {
    assert IndexOf(s, sep) == |s|;
  }

  /** Splitting `a + sep + b`, where `a` holds no separator, yields `a`
      followed by the pieces of `b`. */
  lemma SplitCons(a: string, sep: char, b: string)
    requires sep !in a
    ensures Split(a + [sep] + b, sep) == [a] + Split(b, sep)
  {
    var s := a + [sep] + b;
    assert s[|a|] == sep;
    assert IndexOf(s, sep) == |a|;
    assert s[..|a|] == a;
    assert s[|a| + 1..] == b;
  }

  /** The first piece is the text before the first separator. */
  lemma SplitHead(s: string, sep: char)
    ensures Split(s, sep)[0] == s[..IndexOf(s, sep)]
  {
  }

  /** The second piece runs from just after the first separator up to the
      next one, or to the end. */
  lemma SplitSecond(s: string, sep: char, i: int, j: int)
    requires 0 <= i < j <= |s| && s[i] == sep
    requires forall k :: 0 <= k < i ==> s[k] != sep
    requires forall k :: i < k < j ==> s[k] != sep
    requires j < |s| ==> s[j] == sep
    ensures |Split(s, sep)| > 1 && Split(s, sep)[1] == s[i + 1..j]
  {
    var rest := s[i + 1..];
    assert s == s[..i] + [sep] + rest;
    SplitCons(s[..i], sep, rest);
    SplitHead(rest, sep);
    assert IndexOf(rest, sep) == j - i - 1 by {
      assert forall k :: 0 <= k < j - i - 1 ==> rest[k] == s[i + 1 + k];
    }
    assert rest[..j - i - 1] == s[i + 1..j];
  }

  /** Splitting is the inverse of joining pieces that hold no separator. */
  lemma {:induction false} JoinSplit(parts: seq<string>, sep: char)
    requires |parts| >= 1
    requires forall k :: 0 <= k < |parts| ==> sep !in parts[k]
    ensures Split(Join(parts, sep), sep) == parts
    decreases |parts|
  {
    if |parts| == 1 {
      SplitNoSep(parts[0], sep);
    } else {
      assert forall k :: 0 <= k < |parts| - 1 ==> parts[1..][k] == parts[k + 1];
      JoinSplit(parts[1..], sep);
      SplitCons(parts[0], sep, Join(parts[1..], sep));
    }
  }

  /** Every piece of a join occurs in it. */
  lemma {:induction false} JoinOccurs(parts: seq<string>, sep: char, k: int) returns (i: int)
    requires 0 <= k < |parts|
    ensures OccursAt(Join(parts, sep), parts[k], i)
    decreases k
  {
    var s := Join(parts, sep);
    if k == 0 {
      i := 0;
      assert s[..|parts[0]|] == parts[0];
    } else {
      var j := JoinOccurs(parts[1..], sep, k - 1);
      var tail := Join(parts[1..], sep);
      assert s == parts[0] + [sep] + tail;
      i := |parts[0]| + 1 + j;
      assert s[i..i + |parts[k]|] == tail[j..j + |parts[k]|];
    }
  }

  /** Text ending in a join includes every piece of it, and every start of
      a piece. */
  lemma JoinIncludes(prefix: string, parts: seq<string>, sep: char, k: int, needle: string)
    requires 0 <= k < |parts| && StartsWith(parts[k], needle)
    ensures Includes(prefix + Join(parts, sep), needle)
  {
    var s := Join(parts, sep);
    var i := JoinOccurs(parts, sep, k);
    var hay := prefix + s;
    assert hay[|prefix| + i..|prefix| + i + |needle|] == s[i..i + |needle|];
    assert OccursAt(hay, needle, |prefix| + i);
    IncludesIff(hay, needle);
  }

  /** Text that starts with `prefix` includes every piece of what follows
      the prefix, split at `sep`, and every start of such a piece. */
  lemma SplitIncludes(s: string, prefix: string, sep: char, k: int, needle: string)
    requires StartsWith(s, prefix)
    requires 0 <= k < |Split(s[|prefix|..], sep)| && StartsWith(Split(s[|prefix|..], sep)[k], needle)
    ensures Includes(s, needle)
  {
    var rest := s[|prefix|..];
    SplitJoin(rest, sep);
    assert s == prefix + Join(Split(rest, sep), sep);
    JoinIncludes(prefix, Split(rest, sep), sep, k, needle);
  }

  /** Splitting `a + sep + b` splits `a` and `b` independently. */
  lemma {:induction false} SplitAppend(a: string, sep: char, b: string)
    ensures Split(a + [sep] + b, sep) == Split(a, sep) + Split(b, sep)
    decreases |a|
  {
    var i := IndexOf(a, sep);
    if i == |a| {
      SplitCons(a, sep, b);
    } else {
      var x, a' := a[..i], a[i + 1..];
      assert sep !in x;
      assert a == x + [sep] + a';
      assert a + [sep] + b == x + [sep] + (a' + [sep] + b);
      calc {
        Split(a + [sep] + b, sep);
        { SplitCons(x, sep, a' + [sep] + b); }
        [x] + Split(a' + [sep] + b, sep);
        { SplitAppend(a', sep, b); }
        [x] + (Split(a', sep) + Split(b, sep));
        ([x] + Split(a', sep)) + Split(b, sep);
        { SplitCons(x, sep, a'); }
        Split(a, sep) + Split(b, sep);
      }
    }
  }

  /** The value of the first entry named `name` in an ordered list of
      name/value entries (a header object, a `URLSearchParams`'s `get`). */
  function Lookup(entries: seq<(string, string)>, name: string): (r: Option<string>)
    ensures r.None? <==> forall k :: 0 <= k < |entries| ==> entries[k].0 != name
    ensures r.Some? ==> exists k :: 0 <= k < |entries| && entries[k] == (name, r.value)
                                    && forall j :: 0 <= j < k ==> entries[j].0 != name
    decreases |entries|
  {
    if entries == [] then None
    else if entries[0].0 == name then Some(entries[0].1)
    else
      var r := Lookup(entries[1..], name);
      assert forall k :: 0 < k < |entries| ==> entries[k] == entries[1..][k - 1];
      r
  }

  /** The entry found is the first one carrying the name. */
  lemma {:induction false} LookupAt(entries: seq<(string, string)>, name: string, k: int)
    requires 0 <= k < |entries| && entries[k].0 == name
    requires forall j :: 0 <= j < k ==> entries[j].0 != name
    ensures Lookup(entries, name) == Some(entries[k].1)
    decreases k
  {
    if k > 0 {
      LookupAt(entries[1..], name, k - 1);
    }
  }
}
