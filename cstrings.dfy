/** The slice of the C library both programs lean on: NUL-terminated
    strings, `strrchr`, `strstr`, `snprintf` truncation, `isspace` and
    decimal printing and scanning.  Every `char` here stands for one octet. */
module CStrings {

  datatype Option<T> = None | Some(value: T)

  datatype Result<T, E> = Success(value: T) | Failure(error: E)

  /** A string that can live in a C `char *`: it holds no NUL byte. */
  type CString = s: string | '\0' !in s

  /** The C string a NUL-terminated buffer holds: everything before its first NUL. */
  function CStr(buf: string): (r: CString)
    ensures r <= buf
    ensures |r| == |buf| || buf[|r|] == '\0'
  {
    if buf == [] || buf[0] == '\0' then [] else [buf[0]] + CStr(buf[1..])
  }

  lemma AppendAssoc<T>(a: seq<T>, b: seq<T>, c: seq<T>)
    ensures a + b + c == a + (b + c)
  {
  }

  /** A NUL-free prefix survives `CStr` whole. */
  lemma {:induction false} CStrOfCString(s: CString, rest: string)
    ensures CStr(s + rest) == s + CStr(rest)
  {
    if s == [] {
      assert s + rest == rest;
    } else {
      var t: CString := NulFreeTail(s);
      var buf := s + rest;
      assert buf[0] == s[0] && buf[1..] == t + rest;
      assert CStr(buf) == [s[0]] + CStr(t + rest);
      CStrOfCString(t, rest);
      AppendAssoc([s[0]], t, CStr(rest));
      assert [s[0]] + t == s;
    }
  }

  /** The tail of a non-empty C string is a C string, and its head is not NUL. */
  function NulFreeTail(s: CString): (t: CString)
    requires s != []
    ensures s[0] != '\0' && t == s[1..]
  {
    assert s[0] in s;
    assert forall k :: 0 <= k < |s| - 1 ==> s[1..][k] == s[k + 1];
    s[1..]
  }

  /** A piece of a C string is a C string. */
  lemma SliceIsCString(s: CString, i: nat, j: nat)
    requires i <= j <= |s|
    ensures '\0' !in s[i..j]
  {
    forall k | 0 <= k < j - i ensures s[i..j][k] != '\0' {
      assert s[i + k] in s;
    }
  }

  /** `strrchr(s, c)`: the index of the last `c` in `s`. */
  function LastIndexOf(s: string, c: char): (r: Option<nat>)
    ensures r.None? <==> c !in s
    ensures r.Some? ==> r.value < |s| && s[r.value] == c && c !in s[r.value + 1..]
  {
    if s == [] then None
    else if s[|s| - 1] == c then Some(|s| - 1)
    else
      var r := LastIndexOf(s[..|s| - 1], c);
      assert r.Some? ==> s[r.value + 1..] == s[..|s| - 1][r.value + 1..] + [s[|s| - 1]];
      assert s == s[..|s| - 1] + [s[|s| - 1]];
      r
  }

  /** The last `c` in `s` is at `i` exactly when `s[i] == c` and no `c` follows it. */
  lemma LastIndexOfAt(s: string, c: char, i: nat)
    requires i < |s| && s[i] == c && c !in s[i + 1..]
    ensures LastIndexOf(s, c) == Some(i)
  {
  }

  lemma LastIndexOfEvery(s: string, c: char)
    ensures forall i :: 0 <= i < |s| && s[i] == c && c !in s[i + 1..] ==> LastIndexOf(s, c) == Some(i)
  {
    forall i | 0 <= i < |s| && s[i] == c && c !in s[i + 1..] ensures LastIndexOf(s, c) == Some(i) {
      LastIndexOfAt(s, c, i);
    }
  }

  predicate OccursAt(s: string, pat: string, i: int)
  {
    0 <= i && i + |pat| <= |s| && s[i..i + |pat|] == pat
  }

  /** `strstr` from index `i` on: the first occurrence of `pat` at or after `i`. */
  function FindFrom(s: string, pat: string, i: nat): (r: Option<nat>)
    requires i <= |s|
    ensures r.Some? ==> i <= r.value && OccursAt(s, pat, r.value)
    ensures r.Some? ==> forall j :: i <= j < r.value ==> !OccursAt(s, pat, j)
    ensures r.None? ==> forall j :: i <= j ==> !OccursAt(s, pat, j)
    decreases |s| - i
  {
    if OccursAt(s, pat, i) then Some(i)
    else if i == |s| then None
    else FindFrom(s, pat, i + 1)
  }

  /** `strstr(s, pat)`: the index of the first occurrence of `pat` in `s`. */
  function FindFirst(s: string, pat: string): (r: Option<nat>)
    ensures r.Some? ==> OccursAt(s, pat, r.value)
    ensures r.Some? ==> forall j :: 0 <= j < r.value ==> !OccursAt(s, pat, j)
    ensures r.None? <==> forall j :: !OccursAt(s, pat, j)
  {
    FindFrom(s, pat, 0)
  }

  /** `strstr(s, pat) != NULL` */
  predicate Contains(s: string, pat: string)
  {
    FindFirst(s, pat).Some?
  }

  /** A pattern holding a character the text lacks occurs nowhere in it. */
  lemma MissingCharNotContained(s: string, pat: string, k: nat)
    requires k < |pat| && pat[k] !in s
    ensures !Contains(s, pat)
  {
    forall j | 0 <= j && j + |pat| <= |s| ensures !OccursAt(s, pat, j) {
      assert s[j..j + |pat|][k] == s[j + k] != pat[k];
    }
  }

  lemma ContainsAt(s: string, pat: string, i: int)
    requires OccursAt(s, pat, i)
    ensures Contains(s, pat)
  {
  }

  /** `snprintf(buf, size, ...)` keeps at most `size - 1` characters of what it formats. */
  function Snprintf(formatted: string, size: nat): (r: string)
    requires size >= 1
    ensures r <= formatted
    ensures |r| == if |formatted| < size then |formatted| else size - 1
  {
    if |formatted| < size then formatted else formatted[..size - 1]
  }

  /** C `isspace` in the "C" locale. */
  predicate IsSpace(c: char)
  {
    c == ' ' || c == '\t' || c == '\n' || c == '\r' || c == '\U{000B}' || c == '\U{000C}'
  }

  predicate IsDigit(c: char)
  {
    '0' <= c <= '9'
  }

  function DigitChar(d: nat): (c: char)
    requires d < 10
    ensures IsDigit(c) && c as int - '0' as int == d
  {
    ['0', '1', '2', '3', '4', '5', '6', '7', '8', '9'][d]
  }

  predicate AllDigits(s: string)
  {
    forall k :: 0 <= k < |s| ==> IsDigit(s[k])
  }

  /** `printf("%ld", n)` for a non-negative `n`. */
  function Decimal(n: nat): (r: string)
    ensures r != []
    ensures AllDigits(r)
    ensures |r| > 1 ==> r[0] != '0'
  {
    if n < 10 then [DigitChar(n)] else Decimal(n / 10) + [DigitChar(n % 10)]
  }

  function DigitOf(c: char): (d: nat)
    requires IsDigit(c)
    ensures d < 10 && DigitChar(d) == c
  {
    c as int - '0' as int
  }

  /** The number a string of decimal digits denotes. */
  function DigitsValue(s: string): nat
    requires AllDigits(s)
  {
    if s == [] then 0
    else DigitsValue(s[..|s| - 1]) * 10 + DigitOf(s[|s| - 1])
  }

  lemma {:induction false} DecimalRoundTrip(n: nat)
    ensures DigitsValue(Decimal(n)) == n
  {
    if n >= 10 {
      var d := Decimal(n);
      assert d[..|d| - 1] == Decimal(n / 10);
      DecimalRoundTrip(n / 10);
    }
  }

  lemma OccursAfterPrefix(a: string, s: string, pat: string, i: int)
    requires OccursAt(s, pat, i)
    ensures OccursAt(a + s, pat, |a| + i)
  {
    assert (a + s)[|a| + i..|a| + i + |pat|] == s[i..i + |pat|];
  }

  lemma ContainsAfterPrefix(a: string, s: string, pat: string)
    requires Contains(s, pat)
    ensures Contains(a + s, pat)
  {
    var i := FindFirst(s, pat).value;
    OccursAfterPrefix(a, s, pat, i);
    ContainsAt(a + s, pat, |a| + i);
  }

  /** A string without `c` holds no two-character pattern made of `c`s, hence no "..". */
  lemma NoDotNoDotDot(s: string)
    requires '.' !in s
    ensures !Contains(s, "..")
  {
    forall i | 0 <= i && i + 2 <= |s|
      ensures !OccursAt(s, "..", i)
    {
      assert s[i] in s;
      assert s[i..i + 2][0] == s[i];
    }
  }

  /** What a loop that reads and forwards until a read returns nothing
      passes on: the chunks successive reads returned, in order, up to the first read that
      returned nothing (an empty chunk stands for a return value <= 0, the end
      of the sequence for end of file). */
  function Drain(chunks: seq<string>): (r: string)
    ensures r <= Concat(chunks)
  {
    if chunks == [] || chunks[0] == [] then [] else chunks[0] + Drain(chunks[1..])
  }

  /** Plain concatenation of chunks. */
  function Concat(chunks: seq<string>): string
  {
    if chunks == [] then [] else chunks[0] + Concat(chunks[1..])
  }

  /** One more successful read: the chunk at `i` is forwarded, then the rest. */
  lemma DrainStep(chunks: seq<string>, i: nat)
    requires i < |chunks| && chunks[i] != []
    ensures Drain(chunks[i..]) == chunks[i] + Drain(chunks[i + 1..])
  {
    assert chunks[i..][0] == chunks[i];
    assert chunks[i..][1..] == chunks[i + 1..];
  }

  /** At end of file or at a failed read nothing more is forwarded. */
  lemma DrainEnd(chunks: seq<string>, i: nat)
    requires i <= |chunks| && (i == |chunks| || chunks[i] == [])
    ensures Drain(chunks[i..]) == []
  {
    if i < |chunks| {
      assert chunks[i..][0] == chunks[i];
    }
  }

  /** Reads that all return data are forwarded whole, then whatever follows. */
  lemma {:induction false} DrainAfterReads(ok: seq<string>, later: seq<string>)
    requires forall k :: 0 <= k < |ok| ==> ok[k] != []
    ensures Drain(ok + later) == Concat(ok) + Drain(later)
  {
    if ok == [] {
      assert ok + later == later;
    } else {
      var all := ok + later;
      assert all[0] == ok[0] && all[1..] == ok[1..] + later;
      assert Drain(all) == ok[0] + Drain(ok[1..] + later);
      DrainAfterReads(ok[1..], later);
      AppendAssoc(ok[0], Concat(ok[1..]), Drain(later));
    }
  }

  /** The read loop forwards every chunk up to the first failed read and nothing after it. */
  lemma DrainStopsAtFailedRead(ok: seq<string>, later: seq<string>)
    requires forall k :: 0 <= k < |ok| ==> ok[k] != []
    ensures Drain(ok + [[]] + later) == Concat(ok)
  {
    var tail := [[]] + later;
    DrainAfterReads(ok, tail);
    assert ok + [[]] + later == ok + tail;
    assert tail[0] == [];
    assert Concat(ok) + [] == Concat(ok);
  }

  /** How `read` returns a regular file: blocks of `cap` bytes, the last one shorter. */
  function Blocks(content: string, cap: nat): (r: seq<string>)
    requires cap > 0
    ensures forall k :: 0 <= k < |r| ==> 0 < |r[k]| <= cap
    decreases |content|
  {
    if content == [] then []
    else if |content| <= cap then [content]
    else [content[..cap]] + Blocks(content[cap..], cap)
  }

  lemma {:induction false} DrainBlocks(content: string, cap: nat)
    requires cap > 0
    ensures Drain(Blocks(content, cap)) == content
  {
    if |content| > cap {
      var r := Blocks(content, cap);
      assert r[1..] == Blocks(content[cap..], cap);
      DrainBlocks(content[cap..], cap);
      assert content == content[..cap] + content[cap..];
    }
  }
}
