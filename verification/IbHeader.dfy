/** The headers of the RDMA transfer: ib_client.cpp writes them, ib_server.cpp reads
    them. Memory is a sequence of C chars. */
module IbHeader {
  import opened Basics

  const RDMA_INIT := 'I'
  const RDMA_MSG := 'M'
  const RDMA_DATA := 'D'
  const RDMA_DONE := 'O'

  const HEADER_DELIMITER := '#'
  const NUL := '\0'

  const IB_MAX_DATA_T_LENGTH: nat := 1
  const IB_MAX_DATA_ID_LENGTH: nat := 20
  const IB_MAX_DATA_SIZE_LENGTH: nat := 15

  type UInt64 = x: int | 0 <= x < TWO_64

  // A 64-bit number passed where a C int is read, and the way back.
  function ToInt(n: UInt64): int
  {
    var low := n % TWO_32;
    if low < TWO_31 then low else low - TWO_32
  }

  function FromInt(n: int): UInt64
    requires -TWO_31 <= n < TWO_31
  {
    if n < 0 then n + TWO_64 else n
  }

  // The numbers that survive being printed with %d: the C ints, read as 64-bit ones.
  predicate Printable(n: UInt64)
  {
    n < TWO_31 || TWO_64 - TWO_31 <= n
  }

  lemma ThereAndBack(n: UInt64)
    ensures -TWO_31 <= ToInt(n) < TWO_31 && (FromInt(ToInt(n)) == n <==> Printable(n))
    ensures Printable(n) <==> n < 0x8000_0000 || 0xFFFF_FFFF_8000_0000 <= n
  {
    if TWO_64 - TWO_31 <= n {
      assert n == (TWO_32 - 1) * TWO_32 + (n - (TWO_32 - 1) * TWO_32);
      assert n % TWO_32 == n - (TWO_32 - 1) * TWO_32;
    }
  }

  /* Decimal text. */

  function Digit(d: nat): char
    requires d < 10
  {
    '0' + d as char
  }

  predicate IsDigit(c: char)
  {
    '0' <= c <= '9'
  }

  function Decimal(n: nat): (s: string)
    ensures s != [] && forall i :: 0 <= i < |s| ==> IsDigit(s[i])
  {
    if n < 10 then [Digit(n)] else Decimal(n / 10) + [Digit(n % 10)]
  }

  // sprintf with %d.
  function Printed(n: int): (s: string)
    ensures s != [] && HEADER_DELIMITER !in s && NUL !in s
  {
    if n < 0 then "-" + Decimal(-n) else Decimal(n)
  }

  function ParseDigits(acc: nat, s: string): nat
    decreases |s|
  {
    if s == [] || !IsDigit(s[0]) then acc
    else ParseDigits(10 * acc + (s[0] as int - '0' as int), s[1..])
  }

  // atoi, for text that does not start with blanks.
  function Atoi(s: string): int
  {
    if s != [] && s[0] == '-' then -(ParseDigits(0, s[1..]) as int)
    else if s != [] && s[0] == '+' then ParseDigits(0, s[1..])
    else ParseDigits(0, s)
  }

  lemma {:induction false} ParseDecimal(n: nat, rest: string)
    ensures ParseDigits(0, Decimal(n) + rest) == ParseDigits(n, rest)
  {
    if n < 10 {
      assert (Decimal(n) + rest)[1..] == rest;
    } else {
      var d := Digit(n % 10);
      assert Decimal(n) + rest == Decimal(n / 10) + ([d] + rest);
      ParseDecimal(n / 10, [d] + rest);
      assert ([d] + rest)[1..] == rest;
    }
  }

  lemma AtoiPrinted(n: int)
    ensures Atoi(Printed(n)) == n
  {
    var m: nat := if n < 0 then -n else n;
    ParseDecimal(m, []);
    assert Decimal(m) + [] == Decimal(m);
    if n < 0 {
      assert Printed(n)[1..] == Decimal(m);
    } else {
      assert IsDigit(Printed(n)[0]);
    }
  }

  function Pow10(k: nat): nat
  {
    if k == 0 then 1 else 10 * Pow10(k - 1)
  }

  lemma {:induction false} DecimalLength(n: nat, k: nat)
    requires 1 <= k && n < Pow10(k)
    ensures |Decimal(n)| <= k
  {
    if n >= 10 {
      assert k > 1;
      DecimalLength(n / 10, k - 1);
    }
  }

  lemma PrintedLength(n: int)
    requires -TWO_31 <= n < TWO_31
    ensures |Printed(n)| < IB_MAX_DATA_SIZE_LENGTH
  {
    assert Pow10(4) == 10000 && Pow10(7) == 10000000 && Pow10(10) == 10000000000;
    DecimalLength(if n < 0 then -n else n, 10);
  }

  /* Fields padded with the delimiter. */

  function Padding(n: nat): (s: string)
    ensures |s| == n && forall i :: 0 <= i < n ==> s[i] == HEADER_DELIMITER
  {
    if n == 0 then [] else Padding(n - 1) + [HEADER_DELIMITER]
  }

  function Padded(s: string, n: nat): (r: string)
    requires |s| <= n
    ensures |r| == n
  {
    s + Padding(n - |s|)
  }

  // What strchr leaves of a field: the text before its first c, unless the text ends
  // before, at a NUL or with the field.
  function UpTo(s: string, c: char): (r: Option<string>)
  {
    if s == [] then None
    else if s[0] == c then Some([])
    else if s[0] == NUL then None
    else
      match UpTo(s[1..], c)
      case None => None
      case Some(t) => Some([s[0]] + t)
  }

  // s has a NUL, and no c before it.
  ghost predicate NulFirst(s: string, c: char)
  {
    exists i :: 0 <= i < |s| && s[i] == NUL && c !in s[..i]
  }

  lemma NulFirstTail(s: string, c: char)
    requires s != []
    ensures NulFirst(s, c) <==> s[0] == NUL || (s[0] != c && NulFirst(s[1..], c))
  {
    if i :| 0 <= i < |s| && s[i] == NUL && c !in s[..i] {
      if i > 0 {
        assert s[0] in s[..i] && s[1..][i - 1] == NUL;
        assert forall x :: x in s[1..][..i - 1] ==> x in s[..i];
      }
    }
    if s[0] == NUL {
      assert c !in s[..0];
    } else if s[0] != c && NulFirst(s[1..], c) {
      var i :| 0 <= i < |s| - 1 && s[1..][i] == NUL && c !in s[1..][..i];
      assert s[i + 1] == NUL && s[..i + 1] == [s[0]] + s[1..][..i];
    }
  }

  // The text before c is found in s itself, or when s goes on with c and nothing in it
  // ends the search before.
  lemma {:induction false} UpToFirst(s: string, c: char, rest: string)
    requires c != NUL
    ensures NulFirst(s, c) ==> UpTo(s + rest, c) == None
    ensures c in s && !NulFirst(s, c) ==> UpTo(s + rest, c) == UpTo(s, c) && UpTo(s, c).Some? && UpTo(s, c).value != s
    ensures c !in s && NUL !in s ==>
      UpTo(s + rest, c) == if rest == [] then None else if rest[0] == c then Some(s) else UpTo(s + rest, c)
  {
    if s == [] {
      assert s + rest == rest;
    } else {
      assert (s + rest)[1..] == s[1..] + rest;
      UpToFirst(s[1..], c, rest);
      NulFirstTail(s, c);
      assert s == [s[0]] + s[1..];
    }
  }

  /* The header of ib_client.cpp, as far as make_header writes it. */

  function HeaderSize(t: char): nat
  {
    if t == RDMA_INIT || t == RDMA_DONE then IB_MAX_DATA_T_LENGTH + 1
    else if t == RDMA_MSG then IB_MAX_DATA_T_LENGTH + IB_MAX_DATA_SIZE_LENGTH + 1
    else IB_MAX_DATA_T_LENGTH + IB_MAX_DATA_ID_LENGTH + IB_MAX_DATA_SIZE_LENGTH + 1
  }

  function IdField(id: string): string
    requires |id| <= IB_MAX_DATA_ID_LENGTH
  {
    if id == [] then [] else Padded(id, IB_MAX_DATA_ID_LENGTH)
  }

  function SizeField(size: UInt64): (s: string)
    ensures |s| == if size == 0 then 0 else IB_MAX_DATA_SIZE_LENGTH
  {
    if size == 0 then []
    else
      ThereAndBack(size);
      PrintedLength(ToInt(size));
      Padded(Printed(ToInt(size)), IB_MAX_DATA_SIZE_LENGTH)
  }

  function Header(t: char, id: string, size: UInt64): string
    requires |id| <= IB_MAX_DATA_ID_LENGTH
  {
    [t] + IdField(id) + SizeField(size) + [NUL]
  }

  /* The header as ib_server.cpp reads it. */

  datatype Parsed = Parsed(t: char, id: string, size: UInt64)

  // None: a field has no delimiter, or lies beyond the memory, and reading goes astray.
  function ProcHeader(h: string): Option<Parsed>
  {
    if h == [] then None
    else if h[0] == RDMA_DATA then
      if |h| < 1 + IB_MAX_DATA_ID_LENGTH + IB_MAX_DATA_SIZE_LENGTH then None
      else
        match UpTo(h[1..1 + IB_MAX_DATA_ID_LENGTH], HEADER_DELIMITER)
        case None => None
        case Some(id) => ProcSize(h[0], id, h[1 + IB_MAX_DATA_ID_LENGTH..][..IB_MAX_DATA_SIZE_LENGTH])
    else if h[0] == RDMA_MSG then
      if |h| < 1 + IB_MAX_DATA_SIZE_LENGTH then None else ProcSize(h[0], "", h[1..1 + IB_MAX_DATA_SIZE_LENGTH])
    else Some(Parsed(h[0], "", 0))
  }

  function ProcSize(t: char, id: string, field: string): Option<Parsed>
  {
    match UpTo(field, HEADER_DELIMITER)
    case None => None
    case Some(text) =>
      var n := Atoi(text);
      if -TWO_31 <= n < TWO_31 then Some(Parsed(t, id, FromInt(n))) else None
  }

  lemma PaddedField(s: string, n: nat)
    requires |s| <= n
    ensures NulFirst(s, HEADER_DELIMITER) ==> UpTo(Padded(s, n), HEADER_DELIMITER) == None
    ensures HEADER_DELIMITER in s && !NulFirst(s, HEADER_DELIMITER) ==>
      UpTo(Padded(s, n), HEADER_DELIMITER) == UpTo(s, HEADER_DELIMITER) &&
      UpTo(s, HEADER_DELIMITER).Some? && UpTo(s, HEADER_DELIMITER).value != s
    ensures HEADER_DELIMITER !in s && NUL !in s ==>
      UpTo(Padded(s, n), HEADER_DELIMITER) == if |s| < n then Some(s) else None
    ensures NulFirst(s, HEADER_DELIMITER) ==> NUL in s
    ensures HEADER_DELIMITER !in s && NUL in s ==> NulFirst(s, HEADER_DELIMITER)
  {
    UpToFirst(s, HEADER_DELIMITER, Padding(n - |s|));
    if HEADER_DELIMITER !in s && NUL in s {
      var i :| 0 <= i < |s| && s[i] == NUL;
      assert HEADER_DELIMITER !in s[..i];
    }
  }

  lemma SizeRoundTrip(t: char, id: string, size: UInt64)
    requires size > 0
    ensures ProcSize(t, id, SizeField(size)) == Some(Parsed(t, id, FromInt(ToInt(size))))
    ensures -TWO_31 <= ToInt(size) < TWO_31
  {
    ThereAndBack(size);
    PrintedLength(ToInt(size));
    PaddedField(Printed(ToInt(size)), IB_MAX_DATA_SIZE_LENGTH);
    AtoiPrinted(ToInt(size));
  }

  // proc_header undoes make_header exactly when the id leaves room for a delimiter and
  // has neither a delimiter nor a NUL itself. The search for a delimiter goes astray
  // when a NUL comes before one, and when the id fills its field with neither; a
  // delimiter that comes first cuts the id.
  lemma {:induction false} DataRoundTrip(id: string, size: UInt64)
    requires 0 < |id| <= IB_MAX_DATA_ID_LENGTH && size > 0 && Printable(size)
    ensures |Header(RDMA_DATA, id, size)| == HeaderSize(RDMA_DATA)
    ensures ProcHeader(Header(RDMA_DATA, id, size)) == Some(Parsed(RDMA_DATA, id, size)) <==>
            HEADER_DELIMITER !in id && NUL !in id && |id| < IB_MAX_DATA_ID_LENGTH
    ensures ProcHeader(Header(RDMA_DATA, id, size)) == None <==>
            NulFirst(id, HEADER_DELIMITER) || (HEADER_DELIMITER !in id && |id| == IB_MAX_DATA_ID_LENGTH)
    ensures HEADER_DELIMITER in id && !NulFirst(id, HEADER_DELIMITER) ==>
            UpTo(id, HEADER_DELIMITER).Some? &&
            ProcHeader(Header(RDMA_DATA, id, size)) == Some(Parsed(RDMA_DATA, UpTo(id, HEADER_DELIMITER).value, size))
  {
    hide SizeField, ProcSize, Padded, UpTo, NulFirst, Atoi, ToInt;
    var h := Header(RDMA_DATA, id, size);
    assert h[1..1 + IB_MAX_DATA_ID_LENGTH] == IdField(id);
    assert h[1 + IB_MAX_DATA_ID_LENGTH..][..IB_MAX_DATA_SIZE_LENGTH] == SizeField(size);
    PaddedField(id, IB_MAX_DATA_ID_LENGTH);
    ThereAndBack(size);
    match UpTo(IdField(id), HEADER_DELIMITER)
    case None =>
    case Some(read) => SizeRoundTrip(RDMA_DATA, read, size);
  }

  // The bytes of a data header: the kind, the id padded to 20 bytes, the size in decimal
  // digits padded to 15, and a NUL.
  lemma DataHeaderBytes(id: string, size: UInt64)
    requires 0 < |id| <= 20 && 0 < size < 0x8000_0000
    ensures |Header('D', id, size)| == 37 && Header('D', id, size)[0] == 'D'
    ensures Header('D', id, size)[1..1 + |id|] == id
    ensures forall i :: 1 + |id| <= i < 21 ==> Header('D', id, size)[i] == '#'
    ensures IsNumber(Header('D', id, size)[21..36], size) && Header('D', id, size)[36] == '\0'
  {
    hide SizeField;
    var h := Header('D', id, size);
    assert IdField(id) == id + Padding(20 - |id|);
    assert h == ['D'] + IdField(id) + SizeField(size) + ['\0'];
    assert h[1..1 + |id|] == id;
    assert h[21..36] == SizeField(size);
    SizeBytes(size);
  }

  lemma MsgHeaderBytes(size: UInt64)
    requires 0 < size < 0x8000_0000
    ensures |Header('M', "", size)| == 17 && Header('M', "", size)[0] == 'M'
    ensures IsNumber(Header('M', "", size)[1..16], size) && Header('M', "", size)[16] == '\0'
    ensures Header('I', "", 0) == ['I', '\0']
  {
    hide SizeField;
    assert Header('M', "", size)[1..16] == SizeField(size);
    SizeBytes(size);
    assert SizeField(0) == [];
  }

  // Decimal digits with the value n and no leading zero, then only delimiters.
  ghost predicate IsNumber(s: string, n: nat)
  {
    exists k :: 0 < k < |s| && IsNumberOf(s, n, k)
  }

  ghost predicate IsNumberOf(s: string, n: nat, k: nat)
    requires k <= |s|
  {
    && (forall i :: 0 <= i < k ==> '0' <= s[i] <= '9')
    && (forall i :: k <= i < |s| ==> s[i] == '#')
    && (n > 0 ==> k > 0 && s[0] != '0')
    && n == DigitSum(s[..k])
  }

  // Each digit counts ten times as much as the next one.
  ghost function DigitSum(s: string): int
  {
    if s == [] then 0 else 10 * DigitSum(s[..|s| - 1]) + (s[|s| - 1] as int - '0' as int)
  }

  lemma {:induction false} DecimalIs(n: nat)
    ensures DigitSum(Decimal(n)) == n && (n > 0 ==> Decimal(n)[0] != '0')
    ensures forall i :: 0 <= i < |Decimal(n)| ==> '0' <= Decimal(n)[i] <= '9'
  {
    var s := Decimal(n);
    if n < 10 {
      assert s[..0] == [];
    } else {
      DecimalIs(n / 10);
      assert s[..|s| - 1] == Decimal(n / 10);
    }
  }

  lemma SizeBytes(size: UInt64)
    requires 0 < size < 0x8000_0000
    ensures |SizeField(size)| == 15 && IsNumber(SizeField(size), size)
  {
    ThereAndBack(size);
    assert ToInt(size) == size;
    PrintedLength(size);
    DecimalIs(size);
    var text, s := Decimal(size), SizeField(size);
    assert s == text + Padding(15 - |text|);
    assert s[..|text|] == text;
    assert IsNumberOf(s, size, |text|);
  }

  // An id with a NUL in it, one that fills its field, and one that a delimiter cuts.
  lemma IdsNotReadBack()
    ensures ProcHeader(Header(RDMA_DATA, ['a', NUL], 5)) == None
    ensures ProcHeader(Header(RDMA_DATA, "abcdefghijklmnopqrst", 5)) == None
    ensures ProcHeader(Header(RDMA_DATA, "a#b", 5)) == Some(Parsed(RDMA_DATA, "a", 5))
  {
    hide ProcHeader, Header, UpTo;
    assert NulFirst(['a', NUL], HEADER_DELIMITER) by {
      assert ['a', NUL][1] == NUL;
    }
    DataRoundTrip(['a', NUL], 5);
    DataRoundTrip("abcdefghijklmnopqrst", 5);
    CutId();
    DataRoundTrip("a#b", 5);
  }

  lemma CutId()
    ensures UpTo("a#b", HEADER_DELIMITER) == Some("a") && HEADER_DELIMITER in "a#b" && !NulFirst("a#b", HEADER_DELIMITER)
  {
    assert "a#b"[1..] == "#b" && "a#b"[1] == HEADER_DELIMITER;
    assert UpTo("#b", HEADER_DELIMITER) == Some([]);
    assert ['a'] + [] == "a";
    assert NUL !in "a#b";
  }

  lemma {:induction false} MsgRoundTrip(size: UInt64)
    requires size > 0 && Printable(size)
    ensures |Header(RDMA_MSG, "", size)| == HeaderSize(RDMA_MSG)
    ensures ProcHeader(Header(RDMA_MSG, "", size)) == Some(Parsed(RDMA_MSG, "", size))
  {
    hide SizeField, ProcSize, ToInt;
    var h := Header(RDMA_MSG, "", size);
    assert h[1..1 + IB_MAX_DATA_SIZE_LENGTH] == SizeField(size);
    ThereAndBack(size);
    SizeRoundTrip(RDMA_MSG, "", size);
  }

  lemma ProcMore(h: string, more: string)
    requires ProcHeader(h).Some?
    ensures ProcHeader(h + more) == ProcHeader(h)
  {
    hide UpTo, ProcSize;
    var g := h + more;
    if h[0] == RDMA_DATA {
      assert g[1..1 + IB_MAX_DATA_ID_LENGTH] == h[1..1 + IB_MAX_DATA_ID_LENGTH];
      assert g[1 + IB_MAX_DATA_ID_LENGTH..][..IB_MAX_DATA_SIZE_LENGTH] == h[1 + IB_MAX_DATA_ID_LENGTH..][..IB_MAX_DATA_SIZE_LENGTH];
    } else if h[0] == RDMA_MSG {
      assert g[1..1 + IB_MAX_DATA_SIZE_LENGTH] == h[1..1 + IB_MAX_DATA_SIZE_LENGTH];
    }
  }
}
