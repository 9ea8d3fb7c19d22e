/** NUL-terminated strings in memory.

    A pointer to characters is the memory from there on, a sequence of bytes.  Reading past the end of
    the sequence is an error, so what is proved includes that no function runs past its strings. */
module CStrings {
  import opened Bits
  import opened Wrappers
  import SL = SortedLists

  type Text = seq<Byte>

  /** The characters of a string, without its terminator. */
  type CString = s: seq<Byte> | forall i :: 0 <= i < |s| ==> s[i] != 0

  const SLASH: Byte := 47
  const SPACE: Byte := 32
  const DOT: Byte := 46

  /** A string as it lies in memory. */
  function Stored(s: CString): (m: seq<Byte>)
    ensures 0 in m && Content(m) == s
  {
    var m := s + [0];
    assert m[|s|] == 0;
    m
  }

  /** Where the terminator is. */
  function End(m: seq<Byte>): (n: nat)
    requires 0 in m
    ensures n < |m| && m[n] == 0 && forall i :: 0 <= i < n ==> m[i] != 0
  {
    if m[0] == 0 then 0 else
      assert m == [m[0]] + m[1..];
      1 + End(m[1..])
  }

  function Content(m: seq<Byte>): (s: CString)
    requires 0 in m
    ensures |s| < |m|
  {
    m[..End(m)]
  }

  lemma Reads(m: seq<Byte>)
    requires 0 in m
    ensures var s := Content(m);
            m[..|s|] == s && m[|s|] == 0 && forall i :: 0 <= i < |s| ==> s[i] == m[i]
  {
    hide End;
  }

  /** The string that starts within another one. */
  lemma Tail(m: seq<Byte>, p: nat)
    requires 0 in m && p <= |Content(m)|
    ensures 0 in m[p..] && Content(m[p..]) == Content(m)[p..]
  {
    hide End;
    var s := Content(m);
    Reads(m);
    assert m[p..][|s| - p] == 0;
    ContentIs(m[p..], s[p..]);
  }

  lemma ContentIs(m: seq<Byte>, s: CString)
    requires |s| < |m| && m[|s|] == 0 && forall i :: 0 <= i < |s| ==> s[i] == m[i]
    ensures 0 in m && Content(m) == s
  {
    hide Content, End;
    var t := Content(m);
    Reads(m);
    assert m[|t|] == 0 && m[|s|] == 0;
  }

  /** The value of a `char`, which is signed. */
  function Signed(c: Byte): int { if c < 128 then c else c - 256 }

  function Head(s: CString): Byte { if s == [] then 0 else s[0] }

  /** The order of strings that strcmp computes. */
  function Order(a: CString, b: CString): int {
    if a != [] && b != [] && a[0] == b[0] then Order(a[1..], b[1..]) else Signed(Head(a)) - Signed(Head(b))
  }

  lemma {:induction false} OrderZero(a: CString, b: CString)
    ensures Order(a, b) == 0 <==> a == b
  {
    if a != [] && b != [] && a[0] == b[0] {
      OrderZero(a[1..], b[1..]);
      assert a == [a[0]] + a[1..] && b == [b[0]] + b[1..];
    }
  }

  lemma {:induction false} OrderFlips(a: CString, b: CString)
    ensures Order(a, b) == -Order(b, a)
  {
    if a != [] && b != [] && a[0] == b[0] {
      OrderFlips(a[1..], b[1..]);
    }
  }

  lemma {:induction false} OrderChains(a: CString, b: CString, c: CString)
    requires Order(a, b) <= 0 && Order(b, c) <= 0
    ensures Order(a, c) <= 0
  {
    if a != [] && b != [] && c != [] && a[0] == b[0] == c[0] {
      OrderChains(a[1..], b[1..], c[1..]);
    } else {
      OrderZero(a, b);
      OrderZero(b, c);
    }
  }

  /** The first place where two strings differ, or where one ends, decides their order. */
  lemma {:induction false} OrderAt(a: CString, b: CString, i: nat)
    requires i <= |a| && i <= |b| && forall j :: 0 <= j < i ==> a[j] == b[j]
    requires i < |a| && i < |b| ==> a[i] != b[i]
    ensures Order(a, b) == Signed(Char(a, i)) - Signed(Char(b, i))
    decreases i
  {
    if i > 0 {
      assert a[0] == b[0];
      OrderAt(a[1..], b[1..], i - 1);
    }
  }

  /** What strcmp returns at the first difference, as a number: the difference of the characters or of a
      character and the terminator, where those from 0x80 on are negative and so the smallest. */
  lemma OrderDecides(a: CString, b: CString, i: nat)
    requires i <= |a| && i <= |b| && a[..i] == b[..i] && Char(a, i) != Char(b, i)
    ensures var x: int, y: int := Char(a, i), Char(b, i);
            && ((x < 0x80 <==> y < 0x80) ==> Order(a, b) == x - y)
            && (x < 0x80 <= y ==> Order(a, b) == x - y + 0x100)
            && (y < 0x80 <= x ==> Order(a, b) == x - y - 0x100)
  {
    forall j | 0 <= j < i ensures a[j] == b[j] { assert a[..i][j] == b[..i][j]; }
    OrderAt(a, b, i);
  }

  lemma OrderCompares()
    ensures SL.Comparison(Order)
  {
    forall a, b ensures Order(a, b) < 0 <==> Order(b, a) > 0 {
      OrderFlips(a, b);
    }
    forall a, b, c | Order(a, b) <= 0 && Order(b, c) <= 0 ensures Order(a, c) <= 0 {
      OrderChains(a, b, c);
    }
  }

  /** A character with bit 5 set: lower case, for a letter. */
  function Fold(c: Byte): nat { Or(c, 32) }

  /** The same string but for bit 5 of its characters. */
  predicate FoldEqual(a: Text, b: Text) {
    |a| == |b| && forall i :: 0 <= i < |a| ==> Fold(a[i]) == Fold(b[i])
  }

  predicate BitAt(c: nat, k: nat) {
    if k == 0 then c % 2 == 1 else BitAt(c / 2, k - 1)
  }

  lemma {:induction false} SetsBit(c: nat, k: nat)
    ensures Or(c, Shl(1, k)) == if BitAt(c, k) then c else c + Shl(1, k)
    decreases k
  {
    if k == 0 {
      OrZero(c / 2);
    } else {
      SetsBit(c / 2, k - 1);
    }
  }

  /** Only the terminator and the space fold to the space. */
  lemma FoldsToSpace(c: Byte)
    ensures Fold(c) == Fold(0) <==> c == 0 || c == SPACE
  {
    hide Or;
    assert Shl(1, 5) == 32 by {
      assert Shl(1, 3) == 8;
    }
    SetsBit(c, 5);
    SetsBit(0, 5);
    assert !BitAt(0, 5) && BitAt(32, 5) by {
      assert !BitAt(0, 3) && BitAt(4, 2);
    }
  }

  /** What the fold does to a character. */
  lemma FoldIs(c: Byte)
    ensures Fold(c) == if c / 32 % 2 == 1 then c else c + 32
  {
    hide Or;
    assert Shl(1, 5) == 32 by {
      assert Shl(1, 3) == 8;
    }
    SetsBit(c, 5);
    BitFive(c);
  }

  lemma BitFive(c: Byte)
    ensures BitAt(c, 5) == (c / 32 % 2 == 1)
  {
    assert BitAt(c, 5) == BitAt(c / 2, 4);
    assert BitAt(c / 2, 4) == BitAt(c / 2 / 2, 3);
    assert BitAt(c / 2 / 2, 3) == BitAt(c / 2 / 2 / 2, 2);
    assert BitAt(c / 2 / 2 / 2, 2) == BitAt(c / 2 / 2 / 2 / 2, 1);
    assert BitAt(c / 2 / 2 / 2 / 2, 1) == BitAt(c / 2 / 2 / 2 / 2 / 2, 0);
    assert c / 2 / 2 / 2 / 2 / 2 == c / 32;
  }

  predicate Letter(c: Byte) { 65 <= c <= 90 || 97 <= c <= 122 }

  /** The character with the other value of bit 5. */
  function Partner(c: Byte): Byte { if c / 32 % 2 == 1 then c - 32 else c + 32 }

  /** The same character, or the same letter in the other case. */
  predicate CaseEqual(a: Text, b: Text) {
    |a| == |b| && forall i :: 0 <= i < |a| ==> b[i] == a[i] || (Letter(a[i]) && b[i] == Partner(a[i]))
  }

  lemma FoldPairs(c: Byte, d: Byte)
    ensures Fold(c) == Fold(d) <==> d == c || d == Partner(c)
  {
    hide Fold;
    FoldIs(c);
    FoldIs(d);
  }

  /** Exactly for which strings the comparison with every other string ignores case and nothing else:
      those of letters.  Any other character is also taken for its partner. */
  lemma FoldIsCase(a: Text)
    ensures (forall b :: FoldEqual(a, b) <==> CaseEqual(a, b)) <==> forall i :: 0 <= i < |a| ==> Letter(a[i])
  {
    hide Fold, Letter, Partner;
    if forall i :: 0 <= i < |a| ==> Letter(a[i]) {
      forall b ensures FoldEqual(a, b) <==> CaseEqual(a, b) {
        forall i | 0 <= i < |a| && |a| == |b|
          ensures Fold(a[i]) == Fold(b[i]) <==> b[i] == a[i] || b[i] == Partner(a[i])
        {
          FoldPairs(a[i], b[i]);
        }
      }
    } else {
      var i :| 0 <= i < |a| && !Letter(a[i]);
      var b := a[i := Partner(a[i])];
      PartnerDiffers(a[i]);
      FoldPairs(a[i], b[i]);
      assert FoldEqual(a, b) && !CaseEqual(a, b);
    }
  }

  lemma PartnerDiffers(c: Byte)
    ensures Partner(c) != c
  {}

  /** "[" and "{" are the same name. */
  lemma BracketsFold()
    ensures FoldEqual([91], [123]) && !CaseEqual([91], [123])
  {
    hide Fold;
    FoldPairs(91, 123);
    var a: Text, b: Text := [91], [123];
    assert a[0] == 91 && b[0] == 123;
  }

  /** The guard of strcasecmp's loop for two characters. */
  predicate Same(c: Byte, d: Byte) { Fold(c) == Fold(d) && c != 0 }

  /** strcasecmp goes on past the terminator of the second string. */
  predicate Overruns(str1: seq<Byte>, str2: seq<Byte>)
    requires 0 in str2
  {
    && |Content(str2)| < |str1|
    && forall i :: 0 <= i <= |Content(str2)| ==> Same(str1[i], str2[i])
  }

  /** The first string has no space where the second one, equal up to there, ends. */
  predicate StopsInTime(a: Text, b: Text) {
    |b| < |a| && FoldEqual(a[..|b|], b) ==> a[|b|] != SPACE
  }

  /** Exactly when strcasecmp runs past its second string: when it meets a space of the first one at the
      terminator of the second. */
  lemma OverrunsExact(str1: seq<Byte>, str2: seq<Byte>)
    requires 0 in str1 && 0 in str2
    ensures Overruns(str1, str2) <==> !StopsInTime(Content(str1), Content(str2))
  {
    hide End, Content, Fold;
    var a, b := Content(str1), Content(str2);
    Reads(str1);
    Reads(str2);
    if !StopsInTime(a, b) {
      FoldsToSpace(SPACE);
      forall i | 0 <= i < |b| ensures Same(str1[i], str2[i]) {
        assert a[..|b|][i] == a[i];
      }
    }
    assert |a| <= |b| ==> !Same(str1[|a|], str2[|a|]);
    if Overruns(str1, str2) {
      assert Same(str1[|b|], str2[|b|]);
      FoldsToSpace(str1[|b|]);
      forall i | 0 <= i < |b| ensures Fold(a[i]) == Fold(b[i]) {
        assert Same(str1[i], str2[i]);
      }
    }
  }

  /** The pair "a " and "a" does. */
  lemma SpaceOverruns()
    ensures Overruns([97, SPACE, 0], [97, 0])
  {
    hide Fold, End, Content;
    var str1, str2: seq<Byte> := [97, SPACE, 0], [97, 0];
    assert str1[2] == 0 && str2[1] == 0;
    ContentIs(str2, [97]);
    FoldsToSpace(SPACE);
  }

  /** The loop comes to an end within both memories. */
  ghost predicate Ends(str1: seq<Byte>, str2: seq<Byte>, k: nat) {
    && k < |str1| && k < |str2| && !Same(str1[k], str2[k])
    && forall i :: 0 <= i < k ==> Same(str1[i], str2[i])
  }

  lemma EndsInTime(str1: seq<Byte>, str2: seq<Byte>)
    requires 0 in str1 && 0 in str2 && !Overruns(str1, str2)
    ensures exists k :: Ends(str1, str2, k)
  {
    hide Same, Content;
    var n := 0;
    while n < |Content(str2)| && n < |str1| && Same(str1[n], str2[n])
      invariant n <= |Content(str2)| && n <= |str1| && forall i :: 0 <= i < n ==> Same(str1[i], str2[i])
    {
      n := n + 1;
    }
    if n == |str1| {
      NotPast(str1, str2);
    }
    assert Ends(str1, str2, n);
  }

  lemma NotPast(str1: seq<Byte>, str2: seq<Byte>)
    requires 0 in str1 && |str1| <= |str2|
    ensures exists i :: 0 <= i < |str1| && !Same(str1[i], str2[i])
  {
    var i :| 0 <= i < |str1| && str1[i] == 0;
    assert !Same(str1[i], str2[i]);
  }

  method Strcmp(str1: seq<Byte>, str2: seq<Byte>) returns (r: int)
    requires 0 in str1 && 0 in str2
    ensures r == Order(Content(str1), Content(str2))
  {
    hide End, Content, Order, Signed;
    Reads(str1);
    Reads(str2);
    ghost var a, b := Content(str1), Content(str2);
    var index := 0;
    while str1[index] == str2[index] && str1[index] != 0
      invariant 0 <= index <= |a| && index <= |b| && forall j :: 0 <= j < index ==> a[j] == b[j]
      decreases |a| - index
    {
      index := index + 1;
    }
    OrderAt(a, b, index);
    return Signed(str1[index]) - Signed(str2[index]);
  }

  /** Defined wherever the loop ends within the memory of both strings, even past the second one; k is
      where.  As a comparison of strings the result means something when it stops in time. */
  method Strcasecmp(str1: seq<Byte>, str2: seq<Byte>, ghost k: nat) returns (r: int)
    requires 0 in str1 && 0 in str2 && Ends(str1, str2, k)
    ensures r == Signed(str1[k]) - Signed(str2[k])
    ensures Overruns(str1, str2) <==> k > |Content(str2)|
    ensures !Overruns(str1, str2) ==> (r == 0 <==> FoldEqual(Content(str1), Content(str2)))
  {
    hide Same, Fold, Content, End;
    var index := 0;
    while Same(str1[index], str2[index])
      invariant 0 <= index <= k
      decreases k - index
    {
      index := index + 1;
    }
    r := Signed(str1[index]) - Signed(str2[index]);
    CaseResult(str1, str2, k);
  }

  /** What the place where the loop ends says about the strings. */
  lemma CaseResult(str1: seq<Byte>, str2: seq<Byte>, k: nat)
    requires 0 in str1 && 0 in str2 && Ends(str1, str2, k)
    ensures Overruns(str1, str2) <==> k > |Content(str2)|
    ensures k <= |Content(str2)| ==> (str1[k] == str2[k] <==> FoldEqual(Content(str1), Content(str2)))
  {
    hide Fold, Content, End;
    var a, b := Content(str1), Content(str2);
    Reads(str1);
    Reads(str2);
    assert k <= |a|;
    if k <= |b| {
      FoldsToSpace(str1[k]);
      FoldsToSpace(str2[k]);
      assert forall i :: 0 <= i < k ==> Fold(a[i]) == Fold(b[i]);
    }
  }

  /** The first place of a character other than the terminator. */
  method Strchr(s: seq<Byte>, c: Byte) returns (r: Option<nat>)
    requires 0 in s
    ensures r == Find(Content(s), c)
  {
    hide Find, End, Content;
    Reads(s);
    ghost var t := Content(s);
    var i := 0;
    while s[i] != 0
      invariant 0 <= i <= |t|
      invariant forall j :: 0 <= j < i ==> t[j] != c
      decreases |t| - i
    {
      if s[i] == c { return Some(i); }
      i := i + 1;
    }
    return None;
  }

  predicate Lacks(s: Text, c: Byte) {
    forall i :: 0 <= i < |s| ==> s[i] != c
  }

  function Find(s: Text, c: Byte): (r: Option<nat>)
    ensures r.Some? ==> r.value < |s| && s[r.value] == c && forall i :: 0 <= i < r.value ==> s[i] != c
    ensures r.None? <==> Lacks(s, c)
  {
    if s == [] then None
    else if s[0] == c then Some(0)
    else
      match Find(s[1..], c)
      case None => assert forall i :: 0 < i < |s| ==> s[i] == s[1..][i - 1]; None
      case Some(k) => Some(k + 1)
  }

  /** The last place of a character. */
  method Strrchr(s: seq<Byte>, c: Byte) returns (r: Option<nat>)
    requires 0 in s
    ensures r.Some? ==> r.value < |Content(s)| && Content(s)[r.value] == c
    ensures r.Some? ==> forall i :: r.value < i < |Content(s)| ==> Content(s)[i] != c
    ensures r.None? ==> Lacks(Content(s), c)
  {
    ghost var t := Content(s);
    r := None;
    var i := 0;
    while s[i] != 0
      invariant 0 <= i <= |t|
      invariant r.Some? ==> r.value < i && t[r.value] == c
      invariant forall j :: 0 <= j < i ==> t[j] != c || (r.Some? && j <= r.value)
      decreases |t| - i
    {
      if s[i] == c { r := Some(i); }
      i := i + 1;
    }
  }

  method Strlen(str: seq<Byte>) returns (n: nat)
    requires 0 in str
    ensures n == |Content(str)|
  {
    var index: nat := 1;
    while str[index - 1] != 0
      invariant 1 <= index <= End(str) + 1
      decreases End(str) - index
    {
      index := index + 1;
    }
    return index - 1;
  }

  /** strcpy: the characters and the terminator. */
  method Strcpy(dest: array<Byte>, src: seq<Byte>)
    requires 0 in src && |Content(src)| < dest.Length
    modifies dest
    ensures forall i :: 0 <= i <= |Content(src)| ==> dest[i] == Char(Content(src), i)
    ensures forall i :: |Content(src)| < i < dest.Length ==> dest[i] == old(dest[i])
  {
    hide End, Content;
    Reads(src);
    var k := 0;
    while src[k] != 0
      invariant 0 <= k <= |Content(src)|
      invariant forall i :: 0 <= i < k ==> dest[i] == src[i]
      invariant forall i :: k <= i < dest.Length ==> dest[i] == old(dest[i])
      decreases |Content(src)| - k
    {
      dest[k] := src[k];
      k := k + 1;
    }
    dest[k] := 0;
  }

  /** What strncpy puts into the k-th place: a character, or a zero behind the last one. */
  function Char(s: CString, k: nat): Byte { if k < |s| then s[k] else 0 }

  method Memset(dest: array<Byte>, val: Byte, len: nat)
    requires len <= dest.Length
    modifies dest
    ensures forall i :: 0 <= i < dest.Length ==> dest[i] == if i < len then val else old(dest[i])
  {
    var at := 0;
    while at < len
      invariant 0 <= at <= len
      invariant forall i :: 0 <= i < dest.Length ==> dest[i] == if i < at then val else old(dest[i])
    {
      dest[at] := val;
      at := at + 1;
    }
  }

  /** `--n` on a size_t. */
  function Less(n: nat): nat { if n == 0 then W64 - 1 else n - 1 }

  /** How often `while (--n)` goes round. */
  function Zeros(n: nat): nat { Less(n) }

  /** How many bytes strncpy writes when asked for n: all of them if the string is that long, and
      otherwise the string, its terminator, and the zeros. */
  function Written(s: CString, n: nat): nat {
    if |s| >= n then n else |s| + 1 + Zeros(n - |s| - 1)
  }

  /** strncpy keeps to the n bytes exactly when the terminator is not the last of them.  When it is, the
      count wraps around and the zeros go on over the whole address space. */
  lemma WrittenExact(s: CString, n: nat)
    requires n < W64
    ensures Written(s, n) <= n <==> n != |s| + 1
    ensures n == |s| + 1 ==> Written(s, n) == n + (W64 - 1)
    ensures n > |s| + 1 ==> Written(s, n) == n - 1
  {}

  /** Writes as many bytes as `Written` says, for every n: dest must have room for them. */
  method Strncpy(dest: array<Byte>, at: nat, src: seq<Byte>, n: nat)
    requires 0 in src && n < W64
    requires at + Written(Content(src), n) <= dest.Length
    modifies dest
    ensures forall i :: at <= i < at + Written(Content(src), n) ==> dest[i] == Char(Content(src), i - at)
    ensures forall i :: 0 <= i < dest.Length && !(at <= i < at + Written(Content(src), n)) ==> dest[i] == old(dest[i])
  {
    ghost var s := Content(src);
    ghost var w: nat := 0;
    var left: nat, k: nat := n, 0;
    while left > 0
      invariant left <= n && at + w <= dest.Length
      invariant if left > 0 then k == w == n - left <= |s| else w == Written(s, n)
      invariant forall i :: at <= i < at + w ==> dest[i] == Char(s, i - at)
      invariant forall i :: 0 <= i < dest.Length && !(at <= i < at + w) ==> dest[i] == old(dest[i])
    {
      left := left - 1;
      dest[at + k] := src[k];
      k, w := k + 1, w + 1;
      if src[k - 1] == 0 {
        ghost var rest := Zeros(left);
        left := Less(left);
        while left != 0
          invariant |s| < k == w == |s| + 1 + (rest - left) && left <= rest
          invariant forall i :: at <= i < at + w ==> dest[i] == Char(s, i - at)
          invariant forall i :: 0 <= i < dest.Length && !(at <= i < at + w) ==> dest[i] == old(dest[i])
        {
          dest[at + k] := 0;
          k, w := k + 1, w + 1;
          left := Less(left);
        }
      }
    }
  }
}
