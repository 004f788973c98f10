/**
 * Values shared by every component: bytes, an optional value, and the few
 * JavaScript string operations the packing pipeline and the service worker
 * rely on (`split`/`join`, `startsWith`, `includes`, `toLowerCase`, decimal
 * rendering of numbers in template strings).
 */
module Common {

  /** One octet of a file, a chunk or the packed blob. */
  type Byte = b: int | 0 <= b < 256

  datatype Option<T> = None | Some(value: T)

  /** An entry of a directory listing: a file with its contents, or a directory with its own listing. */
  datatype Node = File(name: string, data: seq<Byte>) | Dir(name: string, children: seq<Node>)

  /** The names `readdirSync` returns for a listing, in listing order. */
  function Names(list: seq<Node>): (r: seq<string>)
    ensures |r| == |list|
    ensures forall i :: 0 <= i < |list| ==> r[i] == list[i].name
  {
    if list == [] then [] else Names(list[..|list| - 1]) + [list[|list| - 1].name]
  }

  // ---------------------------------------------------------------------
  // Byte strings made of pieces

  /** The pieces one after the other. */
  function Concat(pieces: seq<seq<Byte>>): seq<Byte>
  {
    if pieces == [] then [] else Concat(pieces[..|pieces| - 1]) + pieces[|pieces| - 1]
  }

  lemma {:induction false} ConcatAppend(a: seq<seq<Byte>>, b: seq<seq<Byte>>)
    ensures Concat(a + b) == Concat(a) + Concat(b)
    decreases |b|
  {
    if b == [] {
      assert a + b == a;
    } else {
      var b' := b[..|b| - 1];
      assert (a + b)[..|a + b| - 1] == a + b';
      ConcatAppend(a, b');
    }
  }

  /** Piece `i` lies right after the pieces before it. */
  lemma {:induction false} ConcatSlice(pieces: seq<seq<Byte>>, i: nat)
    requires i < |pieces|
    ensures var o := |Concat(pieces[..i])|;
      o + |pieces[i]| <= |Concat(pieces)| && Concat(pieces)[o..o + |pieces[i]|] == pieces[i]
  {
    assert pieces == pieces[..i] + ([pieces[i]] + pieces[i + 1..]);
    ConcatAppend(pieces[..i], [pieces[i]] + pieces[i + 1..]);
    ConcatAppend([pieces[i]], pieces[i + 1..]);
    var single: seq<seq<Byte>> := [pieces[i]];
    assert single[..0] == [];
    assert Concat(single) == pieces[i];
  }

  // ---------------------------------------------------------------------
  // Case folding (ASCII letters only)

  function LowerChar(c: char): char
  {
    if 'A' <= c <= 'Z' then (c as int + 32) as char else c
  }

  /** `toLowerCase()`, restricted to the ASCII letters. */
  function Lower(s: string): string
  {
    seq(|s|, i requires 0 <= i < |s| => LowerChar(s[i]))
  }

  lemma {:induction false} LowerAppend(a: string, b: string)
    ensures Lower(a + b) == Lower(a) + Lower(b)
  {
    var l, r := Lower(a + b), Lower(a) + Lower(b);
    forall i | 0 <= i < |a + b|
      ensures l[i] == r[i]
    {
      if i < |a| {
        assert (a + b)[i] == a[i] && r[i] == Lower(a)[i];
      } else {
        assert (a + b)[i] == b[i - |a|] && r[i] == Lower(b)[i - |a|];
      }
    }
  }

  /** Lower-casing twice is lower-casing once. */
  lemma {:induction false} LowerIdempotent(s: string)
    ensures Lower(Lower(s)) == Lower(s)
  {
  }

  // ---------------------------------------------------------------------
  // Prefixes and substrings

  predicate StartsWith(s: string, prefix: string)
  {
    |prefix| <= |s| && s[..|prefix|] == prefix
  }

  /** `s.includes(sub)`: `sub` occurs somewhere in `s` as a contiguous run. */
  predicate Contains(s: string, sub: string)
    decreases |s|
  {
    StartsWith(s, sub) || (|s| > 0 && Contains(s[1..], sub))
  }

  lemma {:induction false} ContainsAt(s: string, sub: string, k: nat)
    requires k + |sub| <= |s| && s[k..k + |sub|] == sub
    ensures Contains(s, sub)
    decreases k
  {
    if k > 0 {
      assert s[1..][k - 1..k - 1 + |sub|] == s[k..k + |sub|];
      ContainsAt(s[1..], sub, k - 1);
    }
  }

  lemma {:induction false} ContainsWitness(s: string, sub: string) returns (k: nat)
    requires Contains(s, sub)
    ensures k + |sub| <= |s| && s[k..k + |sub|] == sub
    decreases |s|
  {
    if StartsWith(s, sub) {
      k := 0;
    } else {
      var j := ContainsWitness(s[1..], sub);
      assert s[1..][j..j + |sub|] == s[j + 1..j + 1 + |sub|];
      k := j + 1;
    }
  }

  // ---------------------------------------------------------------------
  // `split` and `join` on one separator character

  /** `s.split(c)` in JavaScript: never empty; `"".split(c)` is `[""]`. */
  function Split(s: string, c: char): (parts: seq<string>)
    ensures |parts| >= 1
    decreases |s|
  {
    if s == [] then [""]
    else
      var rest := Split(s[1..], c);
      if s[0] == c then [""] + rest else [[s[0]] + rest[0]] + rest[1..]
  }

  /** `parts.join(c)` in JavaScript: `[].join(c)` is `""`. */
  function Join(parts: seq<string>, c: char): string
  {
    if parts == [] then ""
    else if |parts| == 1 then parts[0]
    else parts[0] + [c] + Join(parts[1..], c)
  }

  /** The last element of `s.split(c)`, i.e. what `.pop()` returns. */
  function AfterLast(s: string, c: char): string
  {
    var parts := Split(s, c);
    parts[|parts| - 1]
  }

  /** No piece of a split contains the separator. */
  lemma {:induction false} SplitPartsFree(s: string, c: char)
    ensures forall i :: 0 <= i < |Split(s, c)| ==> c !in Split(s, c)[i]
    decreases |s|
  {
    if s != [] {
      SplitPartsFree(s[1..], c);
    }
  }

  /** Joining the pieces of a split gives the original string back. */
  lemma {:induction false} JoinSplit(s: string, c: char)
    ensures Join(Split(s, c), c) == s
    decreases |s|
  {
    if s != [] {
      var rest := Split(s[1..], c);
      JoinSplit(s[1..], c);
      if s[0] == c {
        assert Split(s, c) == [""] + rest;
        assert ([""] + rest)[1..] == rest;
      } else {
        var parts := [[s[0]] + rest[0]] + rest[1..];
        assert Split(s, c) == parts;
        if |rest| == 1 {
          assert Join(parts, c) == [s[0]] + rest[0];
        } else {
          assert parts[1..] == rest[1..];
          assert Join(parts, c) == [s[0]] + rest[0] + [c] + Join(rest[1..], c);
          assert Join(rest, c) == rest[0] + [c] + Join(rest[1..], c);
        }
        assert s == [s[0]] + s[1..];
      }
    }
  }

  /** A string without the separator splits into itself alone. */
  lemma {:induction false} SplitFree(s: string, c: char)
    requires c !in s
    ensures Split(s, c) == [s]
    decreases |s|
  {
    if s != [] {
      assert c !in s[1..];
      SplitFree(s[1..], c);
      assert s == [s[0]] + s[1..];
    }
  }

  /** One unfolding of `Split` on a string that starts with the separator. */
  lemma {:induction false} SplitHeadSeparator(t: string, c: char)
    ensures Split([c] + t, c) == [""] + Split(t, c)
  {
    assert ([c] + t)[1..] == t;
  }

  /** One unfolding of `Split` on a string that starts with another character. */
  lemma {:induction false} SplitHeadOther(x: char, t: string, c: char)
    requires x != c
    ensures Split([x] + t, c) == [[x] + Split(t, c)[0]] + Split(t, c)[1..]
  {
    assert ([x] + t)[1..] == t;
  }

  /** Splitting distributes over a separator placed between two strings. */
  lemma {:induction false} SplitAround(a: string, b: string, c: char)
    ensures Split(a + [c] + b, c) == Split(a, c) + Split(b, c)
    decreases |a|
  {
    if a == [] {
      assert a + [c] + b == [c] + b;
      SplitHeadSeparator(b, c);
    } else {
      var x, a' := a[0], a[1..];
      assert a + [c] + b == [x] + (a' + [c] + b);
      assert a == [x] + a';
      SplitAround(a', b, c);
      if x != c {
        SplitAroundOther(x, a' + [c] + b, a', b, c);
      } else {
        SplitAroundSeparator(a' + [c] + b, a', b, c);
      }
    }
  }

  lemma {:induction false} SplitAroundOther(x: char, s: string, a: string, b: string, c: char)
    requires Split(s, c) == Split(a, c) + Split(b, c) && x != c
    ensures Split([x] + s, c) == Split([x] + a, c) + Split(b, c)
  {
    SplitHeadOther(x, s, c);
    SplitHeadOther(x, a, c);
    ConsOnto([x], Split(a, c), Split(b, c));
  }

  lemma {:induction false} SplitAroundSeparator(s: string, a: string, b: string, c: char)
    requires Split(s, c) == Split(a, c) + Split(b, c)
    ensures Split([c] + s, c) == Split([c] + a, c) + Split(b, c)
  {
    SplitHeadSeparator(s, c);
    SplitHeadSeparator(a, c);
    SeqAssoc([""], Split(a, c), Split(b, c));
  }

  lemma {:induction false} SeqAssoc(p: seq<string>, l: seq<string>, r: seq<string>)
    ensures p + (l + r) == (p + l) + r
  {
  }

  /** Prefixing the first piece of `l + r` is prefixing the first piece of `l`. */
  lemma {:induction false} ConsOnto(p: string, l: seq<string>, r: seq<string>)
    requires |l| >= 1
    ensures [p + (l + r)[0]] + (l + r)[1..] == ([p + l[0]] + l[1..]) + r
  {
    assert (l + r)[1..] == l[1..] + r;
  }

  /** There is more than one piece exactly when the separator occurs. */
  lemma {:induction false} SplitCount(s: string, c: char)
    ensures |Split(s, c)| > 1 <==> c in s
    decreases |s|
  {
    if s != [] {
      SplitCount(s[1..], c);
      assert c in s <==> s[0] == c || c in s[1..];
    }
  }

  /** The first piece is the text before the first separator. */
  lemma {:induction false} SplitHead(s: string, c: char)
    requires c in s
    ensures var head := Split(s, c)[0];
      c !in head && |head| < |s| && s[..|head| + 1] == head + [c]
  {
    var parts := Split(s, c);
    SplitCount(s, c);
    SplitPartsFree(s, c);
    JoinSplit(s, c);
    assert s == parts[0] + [c] + Join(parts[1..], c);
  }

  /** The text after the last separator: the tail with no separator in it. */
  lemma {:induction false} AfterLastOf(a: string, b: string, c: char)
    requires c !in b
    ensures AfterLast(a + [c] + b, c) == b
  {
    SplitAround(a, b, c);
    SplitFree(b, c);
  }

  // ---------------------------------------------------------------------
  // Node's `path.extname`, applied to one path segment (a directory entry name)

  /** The position of the last occurrence of `c`, if any. */
  function LastIndexOf(s: string, c: char): (r: Option<nat>)
    ensures r.Some? ==> r.value < |s| && s[r.value] == c && c !in s[r.value + 1..]
    ensures r.None? ==> c !in s
  {
    if s == [] then None
    else if s[|s| - 1] == c then Some(|s| - 1)
    else
      var r := LastIndexOf(s[..|s| - 1], c);
      DropLastSuffix(s, if r.Some? then r.value + 1 else 0);
      r
  }

  lemma {:induction false} DropLastSuffix(s: string, k: nat)
    requires k < |s|
    ensures s[k..] == s[..|s| - 1][k..] + [s[|s| - 1]]
  {
  }

  /**
   * `path.extname(name)` for a name without '/': the text from the last '.',
   * except that a name whose only dot is its first character, or the name
   * "..", has no extension.
   */
  function ExtName(name: string): (ext: string)
    ensures |ext| < |name| || ext == ""
  {
    match LastIndexOf(name, '.')
    case None => ""
    case Some(i) =>
      if i == 0 || (name[0] == '.' && i == 1 && |name| == 2) then "" else name[i..]
  }

  /**
   * A non-empty extension is a proper suffix of the name that starts with
   * its only '.'; a name without a '.' has none.
   */
  lemma {:induction false} ExtNameSpec(name: string)
    ensures var ext := ExtName(name);
      (ext != "" ==> name[|name| - |ext|..] == ext && ext[0] == '.' && '.' !in ext[1..]) &&
      ('.' !in name ==> ext == "")
  {
    match LastIndexOf(name, '.')
    case None =>
    case Some(i) =>
      assert name[i..][1..] == name[i + 1..];
  }

  /** Case folding moves no '.', so the last '.' stays where it was. */
  lemma {:induction false} LastIndexOfLower(s: string)
    ensures LastIndexOf(Lower(s), '.') == LastIndexOf(s, '.')
    decreases |s|
  {
    if s != [] {
      var t := s[..|s| - 1];
      assert Lower(s)[..|s| - 1] == Lower(t);
      LastIndexOfLower(t);
    }
  }

  /** `path.extname(name.toLowerCase())` is `path.extname(name).toLowerCase()`. */
  lemma {:induction false} ExtNameLower(name: string)
    ensures ExtName(Lower(name)) == Lower(ExtName(name))
  {
    LastIndexOfLower(name);
    match LastIndexOf(name, '.')
    case None =>
    case Some(i) =>
      var l := Lower(name);
      assert l[0] == '.' <==> name[0] == '.';
      if !(i == 0 || (name[0] == '.' && i == 1 && |name| == 2)) {
        LowerSuffix(name, i);
      }
  }

  lemma {:induction false} LowerSuffix(s: string, i: nat)
    requires i <= |s|
    ensures Lower(s)[i..] == Lower(s[i..])
  {
    var l, r := Lower(s)[i..], Lower(s[i..]);
    assert forall k :: 0 <= k < |l| ==> l[k] == Lower(s)[i + k] && r[k] == LowerChar(s[i..][k]);
  }

  /** A dot-free, non-empty stem followed by a one-dot extension has that extension. */
  lemma {:induction false} ExtNameOfJoin(stem: string, ext: string)
    requires |stem| > 0 && '.' !in stem
    requires |ext| > 0 && ext[0] == '.' && '.' !in ext[1..]
    ensures ExtName(stem + ext) == ext
  {
    var s := stem + ext;
    assert s[|stem|] == '.';
    match LastIndexOf(s, '.')
    case None =>
      assert false;
    case Some(i) =>
      assert i == |stem|;
      assert s[i..] == ext;
  }

  /** The lower-cased `path.extname` of the name is one of `exts`. */
  predicate IsImageFile(f: string, exts: seq<string>)
  {
    Lower(ExtName(f)) in exts
  }

  /** `path.parse(name).name`: the name without its extension. */
  function BaseName(name: string): string
  {
    name[..|name| - |ExtName(name)|]
  }

  // ---------------------------------------------------------------------
  // Decimal rendering (`${n}` in a template string) and parsing

  function DigitChar(d: nat): char
    requires d < 10
  {
    ['0', '1', '2', '3', '4', '5', '6', '7', '8', '9'][d]
  }

  function DigitValue(c: char): nat
    requires '0' <= c <= '9'
  {
    c as int - '0' as int
  }

  predicate IsDigits(s: string)
  {
    |s| > 0 && forall i :: 0 <= i < |s| ==> '0' <= s[i] <= '9'
  }

  /** `${n}` for a non-negative integer. */
  function NatToString(n: nat): (r: string)
    ensures IsDigits(r)
  {
    if n < 10 then [DigitChar(n)] else NatToString(n / 10) + [DigitChar(n % 10)]
  }

  /** `${i}` for any integer: a minus sign, then the digits. */
  function IntToString(i: int): string
  {
    if i < 0 then "-" + NatToString(-i) else NatToString(i)
  }

  /** The value of a string of decimal digits, most significant first. */
  function DigitsValue(s: string): nat
    requires IsDigits(s)
  {
    if |s| == 1 then DigitValue(s[0])
    else 10 * DigitsValue(s[..|s| - 1]) + DigitValue(s[|s| - 1])
  }

  /** Reading back a rendered number gives the number. */
  lemma {:induction false} DigitsRoundTrip(n: nat)
    ensures DigitsValue(NatToString(n)) == n
  {
    if n >= 10 {
      var s := NatToString(n);
      assert s[..|s| - 1] == NatToString(n / 10);
      DigitsRoundTrip(n / 10);
    }
  }

  lemma {:induction false} DigitsHaveNo(s: string, c: char)
    requires IsDigits(s) && !('0' <= c <= '9')
    ensures c !in s
  {
  }
}
