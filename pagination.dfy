/** The page-offset helper of the list endpoints: the `page` query parameter (default "1") is read
    with strconv.Atoi, its error discarded, and turned into the row offset of that page. Go's `int`
    is 64 bits wide, and the multiplication in the source wraps around. */
module Pagination {
  import opened Common
  import Table

  const IntMin: int := -0x8000_0000_0000_0000
  const IntMax: int := 0x7fff_ffff_ffff_ffff
  const Modulus: int := 0x1_0000_0000_0000_0000

  predicate IsInt64(x: int)
  {
    IntMin <= x <= IntMax
  }

  /** Two's-complement wrap-around of a mathematical integer into 64 bits. */
  function Wrap(x: int): (r: int)
    ensures IsInt64(r)
    ensures (r - x) % Modulus == 0
    ensures IsInt64(x) ==> r == x
  {
    (x - IntMin) % Modulus + IntMin
  }

  // ---- strconv.Atoi ----

  predicate IsDigit(c: char)
  {
    '0' <= c <= '9'
  }

  predicate AllDigits(s: string)
  {
    forall k :: 0 <= k < |s| ==> IsDigit(s[k])
  }

  /** The value of a string of decimal digits, most significant first. */
  function DigitsValue(s: string): (v: nat)
    requires AllDigits(s)
  {
    if |s| == 0 then 0 else DigitsValue(s[..|s| - 1]) * 10 + (s[|s| - 1] as int - '0' as int)
  }

  /** What Atoi accepts: an optional sign followed by at least one decimal digit. */
  predicate IsDecimal(s: string)
  {
    && |s| > 0
    && if s[0] == '+' || s[0] == '-' then |s| > 1 && AllDigits(s[1..]) else AllDigits(s)
  }

  function SignedValue(s: string): int
    requires IsDecimal(s)
  {
    if s[0] == '-' then -(DigitsValue(s[1..]) as int)
    else if s[0] == '+' then DigitsValue(s[1..])
    else DigitsValue(s)
  }

  function Clamp(x: int): (r: int)
    ensures IsInt64(r)
    ensures IsInt64(x) ==> r == x
    ensures x > IntMax ==> r == IntMax
    ensures x < IntMin ==> r == IntMin
  {
    if x > IntMax then IntMax else if x < IntMin then IntMin else x
  }

  /** strconv.Atoi with its error dropped: a malformed string reads as 0, an out-of-range one as
      the nearest 64-bit bound. */
  function Atoi(s: string): (r: int)
    ensures IsInt64(r)
    ensures !IsDecimal(s) ==> r == 0
  {
    if IsDecimal(s) then Clamp(SignedValue(s)) else 0
  }

  /** The decimal digits of a natural number, without leading zeros. */
  function Digits(n: nat): (s: string)
    ensures |s| > 0 && AllDigits(s)
  {
    if n < 10 then [('0' as int + n) as char] else Digits(n / 10) + [('0' as int + n % 10) as char]
  }

  /** strconv.Itoa: the decimal form of a 64-bit integer. */
  function Itoa(n: int): (s: string)
    ensures |s| > 0
  {
    if n < 0 then "-" + Digits(-n) else Digits(n)
  }

  lemma {:induction false} DigitsValueOfDigits(n: nat)
    ensures DigitsValue(Digits(n)) == n
  {
    var s := Digits(n);
    if n >= 10 {
      DigitsValueOfDigits(n / 10);
      assert s[..|s| - 1] == Digits(n / 10);
    }
  }

  /** Atoi reads back every 64-bit integer from its decimal form. */
  lemma AtoiItoa(n: int)
    requires IsInt64(n)
    ensures Atoi(Itoa(n)) == n
  {
    var s := Itoa(n);
    if n < 0 {
      assert s[1..] == Digits(-n);
      DigitsValueOfDigits(-n);
    } else {
      assert IsDigit(s[0]);
      DigitsValueOfDigits(n);
    }
  }

  // ---- GetPage ----

  /** ctx.DefaultQuery("page", "1"): the parameter when the request carries one, else "1". */
  function DefaultQuery(query: Option<string>, default: string): (r: string)
    ensures query.Some? ==> r == query.value
    ensures query.None? ==> r == default
  {
    if query.Some? then query.value else default
  }

  /** The offset of a page, computed on mathematical integers: nothing before the first page,
      then one page size per page before the requested one. */
  function Offset(page: int, pageSize: int): (r: int)
    ensures page <= 1 ==> r == 0
    ensures pageSize >= 0 ==> r >= 0
  {
    if page <= 0 then 0 else (page - 1) * pageSize
  }

  /** GetPage with the page size a parameter, the offset computed without overflow. */
  function GetPage(query: Option<string>, pageSize: int): (r: int)
    ensures query.Some? && !IsDecimal(query.value) ==> r == 0
    ensures pageSize >= 0 ==> r >= 0
  {
    Offset(Atoi(DefaultQuery(query, "1")), pageSize)
  }

  /** The offset as the source computes it: the product wraps around in 64 bits. */
  function OffsetAsWritten(page: int, pageSize: int): (r: int)
    requires IsInt64(page) && IsInt64(pageSize)
    ensures IsInt64(r)
    ensures page <= 0 ==> r == 0
  {
    if page <= 0 then 0 else Wrap((page - 1) * pageSize)
  }

  /** util.GetPage as written: the offset of the page the parameter names, wrapped into 64 bits. */
  function GetPageAsWritten(query: Option<string>, pageSize: int): (r: int)
    requires IsInt64(pageSize)
    ensures IsInt64(r)
    ensures query.Some? && !IsDecimal(query.value) ==> r == 0
  {
    OffsetAsWritten(Atoi(DefaultQuery(query, "1")), pageSize)
  }

  /** A request without a page parameter, or with one that does not parse, starts at row 0. */
  lemma GetPageDefaults(s: string, pageSize: int)
    ensures GetPage(None, pageSize) == 0
    ensures !IsDecimal(s) ==> GetPage(Some(s), pageSize) == 0
  {
    assert IsDecimal("1") && SignedValue("1") == 1 by {
      assert DigitsValue("1") == DigitsValue("") * 10 + 1;
    }
  }

  /** A page parameter written in decimal selects that page. */
  lemma GetPageOfNumber(page: int, pageSize: int)
    requires IsInt64(page)
    ensures GetPage(Some(Itoa(page)), pageSize) == Offset(page, pageSize)
  {
    AtoiItoa(page);
  }

  /** The rows of `k` full pages laid end to end. */
  function PagesLength(k: nat, pageSize: int): int
  {
    if k == 0 then 0 else PagesLength(k - 1, pageSize) + pageSize
  }

  /** The offset is a whole number of pages: the full pages before the requested one, none before
      the first. */
  lemma {:induction false} OffsetIsWholePages(page: int, pageSize: int)
    ensures Offset(page, pageSize) == PagesLength(if page <= 1 then 0 else page - 1, pageSize)
  {
    if page > 1 {
      OffsetIsWholePages(page - 1, pageSize);
      OffsetNextPage(page - 1, pageSize);
    }
  }

  /** Later pages start no earlier. */
  lemma OffsetMonotone(p1: int, p2: int, pageSize: int)
    requires p1 <= p2 && pageSize >= 0
    ensures Offset(p1, pageSize) <= Offset(p2, pageSize)
  {
    if p1 > 0 {
      assert (p2 - 1) * pageSize == (p1 - 1) * pageSize + (p2 - p1) * pageSize;
    }
  }

  /** Page p + 1 starts one page size after page p, from the first page on. */
  lemma OffsetNextPage(page: int, pageSize: int)
    requires page >= 1
    ensures Offset(page + 1, pageSize) == Offset(page, pageSize) + pageSize
  {
    assert page * pageSize == (page - 1) * pageSize + pageSize;
  }

  /** Two consecutive pages of a result, fetched with this offset and limit pageSize, are together
      the double-size page at the first one's offset: no row is skipped or repeated. */
  lemma ConsecutivePagesTile<T>(s: seq<T>, page: int, pageSize: nat)
    requires page >= 1
    ensures Table.Window(s, Offset(page, pageSize), pageSize) + Table.Window(s, Offset(page + 1, pageSize), pageSize)
         == Table.Window(s, Offset(page, pageSize), 2 * pageSize)
  {
    var first := Offset(page, pageSize);
    OffsetNextPage(page, pageSize);
    Table.WindowsTile(s, first, pageSize, pageSize);
    assert pageSize + pageSize == 2 * pageSize;
  }

  /** Where the product fits in 64 bits, the source's offset is the intended one. */
  lemma OffsetAsWrittenAgrees(page: int, pageSize: int)
    requires IsInt64(page) && IsInt64(pageSize)
    requires IsInt64(Offset(page, pageSize))
    ensures OffsetAsWritten(page, pageSize) == Offset(page, pageSize)
  {
  }

  /** Page 10^18 + 1 with ten rows a page: the product 10^19 exceeds the 64-bit range and the
      source computes a negative offset. */
  lemma OffsetAsWrittenWraps()
    ensures GetPageAsWritten(Some(Itoa(1_000_000_000_000_000_001)), 10) == -8_446_744_073_709_551_616
    ensures GetPage(Some(Itoa(1_000_000_000_000_000_001)), 10) == 10_000_000_000_000_000_000
  {
    AtoiItoa(1_000_000_000_000_000_001);
  }

  /** The store reads that negative offset as "skip nothing": the request is served the first page
      of any result, where the intended offset lies past the end and gives an empty page. */
  lemma WrappedOffsetServesFirstPage<T>(s: seq<T>)
    requires |s| <= 10_000_000_000_000_000_000
    ensures Table.Window(s, GetPageAsWritten(Some(Itoa(1_000_000_000_000_000_001)), 10), 10) == Table.Window(s, 0, 10)
    ensures Table.Window(s, GetPage(Some(Itoa(1_000_000_000_000_000_001)), 10), 10) == []
  {
    OffsetAsWrittenWraps();
  }
}
