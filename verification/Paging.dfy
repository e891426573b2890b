/** Paged search (RFC 2696): the server's page loop, the cookie, the control value, and the client's loop. */
module Paging {
  import opened Octets
  import opened Entries
  import opened Ber
  import opened Decimal

  // ---------- the control value ----------

  function PagedBody(size: int32, cookie: Text): seq<byte> {
    Integer(size) + OctetString(cookie)
  }

  function PagedValue(size: int32, cookie: Text): Text {
    Element(BER_SEQUENCE, PagedBody(size, cookie))
  }

  datatype PageRequest = PageRequest(size: int32, cookie: Text)

  function ReadPagedValue(value: Text): Option<PageRequest> {
    var (body, _) :- ReadTagged(BER_SEQUENCE, value);
    var (size, rest) :- ReadInteger(body);
    var (cookie, _) :- ReadOctetString(rest);
    Some(PageRequest(ToInt32(size), cookie))
  }

  lemma PagedValueRoundTrip(size: int32, cookie: Text)
    requires |PagedBody(size, cookie)| < TWO_32
    ensures ReadPagedValue(PagedValue(size, cookie)) == Some(PageRequest(size, cookie))
  {
    hide Element, ReadElement, ReadTagged, Integer, ReadInteger;
    TaggedRoundTripEnd(BER_SEQUENCE, PagedBody(size, cookie));
    IntegerRoundTrip(size, OctetString(cookie));
    TaggedRoundTripEnd(BER_OCTET_STRING, cookie);
    assert ToInt32(size) == size;
  }

  lemma {:induction false} DecimalWidth(n: nat, w: nat)
    requires n < PowerOfTen(w) && w > 0
    ensures |ToDecimal(n)| <= w
  {
    if n >= 10 {
      DecimalWidth(n / 10, w - 1);
    }
  }

  function PowerOfTen(w: nat): nat {
    if w == 0 then 1 else 10 * PowerOfTen(w - 1)
  }

  /** The values the server writes are short, so their round trip needs no condition. */
  lemma CookieValueRoundTrip(size: int32, next: nat)
    requires next < 0x8000_0000
    ensures ReadPagedValue(PagedValue(size, ToDecimal(next))) == Some(PageRequest(size, ToDecimal(next)))
    ensures ReadPagedValue(PagedValue(size, [])) == Some(PageRequest(size, []))
    ensures WholeNonNegative(ToDecimal(next)) == Some(next) && ToDecimal(next) != []
  {
    assert PowerOfTen(5) == 10_0000;
    assert PowerOfTen(10) == 100_0000_0000;
    DecimalWidth(next, 10);
    DecimalRoundTrip(next);
    ShortBody(size, ToDecimal(next));
    ShortBody(size, []);
    PagedValueRoundTrip(size, ToDecimal(next));
    PagedValueRoundTrip(size, []);
  }

  lemma ShortBody(size: int32, cookie: Text)
    requires |cookie| <= 10
    ensures |PagedBody(size, cookie)| < TWO_32
  {
  }

  // ---------- one page ----------

  /** How many entries the loop sends, and the result it ends with. A limit at or below the page size is hit first. */
  function SendCount(available: nat, sizeLimit: int32, pageSize: int32): (nat, ResultCode) {
    if sizeLimit > 0 && available > sizeLimit && (pageSize <= 0 || sizeLimit <= pageSize) then
      (sizeLimit, SIZE_LIMIT_EXCEEDED)
    else if pageSize > 0 && available > pageSize then (pageSize, SUCCESS)
    else (available, SUCCESS)
  }

  /** The first of the checks numbered `from` to `bound - 1` that finds the deadline passed, or `bound`. */
  function FirstLate(late: nat -> bool, from: nat, bound: nat): (k: nat)
    requires from <= bound
    ensures from <= k <= bound && (k < bound ==> late(k)) && forall i :: from <= i < k ==> !late(i)
    decreases bound - from
  {
    if from == bound || late(from) then from else FirstLate(late, from + 1, bound)
  }

  /** The deadline is looked at before each entry and before either limit. */
  function TimedCount(available: nat, sizeLimit: int32, pageSize: int32, late: nat -> bool): (nat, ResultCode) {
    var (n, code) := SendCount(available, sizeLimit, pageSize);
    var checks := if n < available then n + 1 else n;
    var k := FirstLate(late, 0, checks);
    if k < checks then (k, TIME_LIMIT_EXCEEDED) else (n, code)
  }

  lemma NoDeadline(available: nat, sizeLimit: int32, pageSize: int32, late: nat -> bool)
    requires forall k :: !late(k)
    ensures TimedCount(available, sizeLimit, pageSize, late) == SendCount(available, sizeLimit, pageSize)
  {
  }

  /** The answer to one search request that carried a paged results control. */
  datatype Page<T> =
    | Page(entries: seq<T>, code: ResultCode, control: Option<Text>)
    | InvalidControl
    | InvalidCookie
    | Undefined // the loop indexes before the first entry, or the remainder overflows an int

  function Available<T>(visible: seq<T>, offset: nat): nat {
    if offset < |visible| then |visible| - offset else 0
  }

  function OffsetOf(cookie: Text): Option<int32> {
    if cookie == [] then Some(0)
    else
      var n :- WholeNonNegative(cookie);
      Some(ToInt32(n))
  }

  function NextCookie(next: nat, total: nat, code: ResultCode): Text {
    if next < total && code != SIZE_LIMIT_EXCEEDED then ToDecimal(next) else []
  }

  /** The part of `handleSearch` after the visible entries are known; a size below zero means no paging. */
  function PageOf<T>(visible: seq<T>, sizeLimit: int32, size: int32, cookie: Text, late: nat -> bool): Page<T>
    requires |visible| < 0x8000_0000
  {
    match OffsetOf(cookie)
    case None => InvalidCookie
    case Some(offset) =>
      if size == 0 then Page([], SUCCESS, Some(PagedValue(0, [])))
      else if offset < 0 then BeforeFirst(|visible|, size, offset, late)
      else
        var (sent, code) := TimedCount(Available(visible, offset), sizeLimit, size, late);
        var next := offset + sent;
        var entries := if sent == 0 then [] else visible[offset..next];
        if size > 0 then
          Page(entries, code, Some(PagedValue(Available(visible, next), NextCookie(next, |visible|, code))))
        else Page(entries, code, None)
  }

  /** A cookie narrowed to a negative offset: the loop looks at the deadline before it indexes. */
  function BeforeFirst<T>(total: nat, size: int32, offset: int32, late: nat -> bool): Page<T>
    requires offset < 0
  {
    if !late(0) then Undefined
    else if size < 0 then Page([], TIME_LIMIT_EXCEEDED, None)
    else if total - offset >= 0x8000_0000 then Undefined
    else Page([], TIME_LIMIT_EXCEEDED, Some(PagedValue(total - offset, SignedDecimal(offset))))
  }

  /** A cookie that narrows to a negative offset. */
  predicate WrapsAround(cookie: Text) {
    var n := WholeNonNegative(cookie);
    cookie != [] && n.Some? && n.value % TWO_32 >= 0x8000_0000
  }

  /** The offset it narrows to, made positive. */
  function Depth(cookie: Text): nat
    requires WrapsAround(cookie)
  {
    TWO_32 - WholeNonNegative(cookie).value % TWO_32
  }

  /** The handler's behaviour is undefined exactly when the cookie wraps around, the page is not empty, and either the
      deadline has not passed, or the remainder it would report overflows. */
  lemma UndefinedExactly<T>(visible: seq<T>, sizeLimit: int32, size: int32, cookie: Text, late: nat -> bool)
    requires |visible| < 0x8000_0000
    ensures PageOf(visible, sizeLimit, size, cookie, late) == Undefined <==>
              && WrapsAround(cookie) && size != 0
              && (!late(0) || (size > 0 && |visible| + Depth(cookie) >= 0x8000_0000))
  {
    hide WholeNonNegative, TimedCount, PagedValue, SignedDecimal;
    var n := WholeNonNegative(cookie);
    if cookie != [] && n.Some? {
      Narrowed(n.value);
    }
  }

  lemma Narrowed(n: nat)
    ensures ToInt32(n) == if n % TWO_32 >= 0x8000_0000 then n % TWO_32 - TWO_32 else n % TWO_32
  {
  }

  /** One such cookie. Any client can send it, and any search without a deadline reaches the loop with it. */
  lemma WrappedCookie<T>(visible: seq<T>, sizeLimit: int32, size: int32, late: nat -> bool)
    requires |visible| < 0x8000_0000 && size != 0 && !late(0)
    ensures PageOf(visible, sizeLimit, size, ToDecimal(0x8000_0000), late) == Undefined
  {
    hide WholeNonNegative, ToDecimal;
    DecimalRoundTrip(0x8000_0000);
    UndefinedExactly(visible, sizeLimit, size, ToDecimal(0x8000_0000), late);
  }

  /** No cookie the server issues wraps around. */
  lemma IssuedIsDefined<T>(visible: seq<T>, sizeLimit: int32, size: int32, cookie: Text, offset: nat, late: nat -> bool)
    requires |visible| < 0x8000_0000 && Issued(cookie, offset, |visible|)
    ensures PageOf(visible, sizeLimit, size, cookie, late) != Undefined
  {
    hide WholeNonNegative, ToDecimal, PageOf;
    DecimalRoundTrip(offset);
    UndefinedExactly(visible, sizeLimit, size, cookie, late);
  }

  function ServePage<T>(visible: seq<T>, sizeLimit: int32, control: Text, late: nat -> bool): Page<T>
    requires |visible| < 0x8000_0000
  {
    match ReadPagedValue(control)
    case None => InvalidControl
    case Some(r) => PageOf(visible, sizeLimit, r.size, r.cookie, late)
  }

  /** The server's loop: `sent` entries from `offset` until the deadline, the size limit or the page's end. */
  method SendFrom<T>(visible: seq<T>, offset: nat, sizeLimit: int32, size: int32, late: nat -> bool)
    returns (entries: seq<T>, code: ResultCode)
    ensures (|entries|, code) == TimedCount(Available(visible, offset), sizeLimit, size, late)
    ensures entries == if |entries| == 0 then [] else visible[offset..offset + |entries|]
  {
    hide TimedCount;
    entries, code := [], SUCCESS;
    if offset >= |visible| {
      CountIs(0, sizeLimit, size, late, 0, SUCCESS);
      return;
    }
    ghost var available := |visible| - offset;
    var sent: nat := 0;
    while offset + sent < |visible|
      invariant sent == |entries| <= available && entries == visible[offset..offset + sent]
      invariant sizeLimit > 0 ==> sent <= sizeLimit
      invariant size > 0 ==> sent <= size
      invariant NotLate(late, sent)
    {
      if late(sent) {
        code := TIME_LIMIT_EXCEEDED;
        CountIs(available, sizeLimit, size, late, sent, code);
        return;
      }
      if sizeLimit > 0 && sent >= sizeLimit {
        code := SIZE_LIMIT_EXCEEDED;
        CountIs(available, sizeLimit, size, late, sent, code);
        return;
      }
      if size > 0 && sent >= size {
        CountIs(available, sizeLimit, size, late, sent, code);
        return;
      }
      entries := entries + [visible[offset + sent]];
      sent := sent + 1;
    }
    CountIs(available, sizeLimit, size, late, sent, code);
  }

  /** None of the first checks found the deadline passed. */
  ghost predicate NotLate(late: nat -> bool, sent: nat) {
    forall k: nat :: k < sent ==> !late(k)
  }

  method SendPage<T>(visible: seq<T>, sizeLimit: int32, size: int32, cookie: Text, late: nat -> bool) returns (page: Page<T>)
    requires |visible| < 0x8000_0000
    ensures page == PageOf(visible, sizeLimit, size, cookie, late)
  {
    hide PagedValue, OffsetOf, TimedCount, NextCookie, BeforeFirst;
    var parsed := OffsetOf(cookie);
    if parsed.None? {
      return InvalidCookie;
    }
    var offset: int := parsed.value;
    if size == 0 {
      return Page([], SUCCESS, Some(PagedValue(0, [])));
    }
    if offset < 0 {
      return BeforeFirst(|visible|, size, offset, late);
    }
    var entries, code := SendFrom(visible, offset, sizeLimit, size, late);
    var next := offset + |entries|;
    if size > 0 {
      return Page(entries, code, Some(PagedValue(Available(visible, next), NextCookie(next, |visible|, code))));
    }
    return Page(entries, code, None);
  }

  /** The loop's three ways out determine the count and the code. */
  lemma CountIs(available: nat, sizeLimit: int32, size: int32, late: nat -> bool, sent: nat, code: ResultCode)
    requires sent <= available && NotLate(late, sent)
    requires (sizeLimit > 0 ==> sent <= sizeLimit) && (size > 0 ==> sent <= size)
    requires if sent == available then code == SUCCESS
             else if late(sent) then code == TIME_LIMIT_EXCEEDED
             else if sizeLimit > 0 && sent >= sizeLimit then code == SIZE_LIMIT_EXCEEDED
             else code == SUCCESS && size > 0 && sent >= size
    ensures TimedCount(available, sizeLimit, size, late) == (sent, code)
  {
    var (n, c) := SendCount(available, sizeLimit, size);
    var checks := if n < available then n + 1 else n;
    var k := FirstLate(late, 0, checks);
    assert sent <= n;
    if sent < available && late(sent) {
      assert k == sent;
    } else {
      assert sent == n;
    }
  }

  // ---------- following cookies ----------

  function Prepend<T>(first: seq<T>, rest: (seq<T>, ResultCode)): (seq<T>, ResultCode) {
    (first + rest.0, rest.1)
  }

  lemma PrependTwice<T>(a: seq<T>, b: seq<T>, rest: (seq<T>, ResultCode))
    ensures Prepend(a, Prepend(b, rest)) == Prepend(a + b, rest)
  {
    assert a + (b + rest.0) == (a + b) + rest.0;
  }

  lemma PrependNothing<T>(rest: (seq<T>, ResultCode))
    ensures Prepend([], rest) == rest
  {
    assert [] + rest.0 == rest.0;
  }

  lemma PrependLast<T>(first: seq<T>, last: seq<T>, code: ResultCode)
    ensures Prepend(first, (last, code)) == (first + last, code)
  {
  }

  /** All entries received from `offset` on, with page size `sizes(turn)` in each turn, and the last result. */
  function Follow<T>(visible: seq<T>, sizeLimit: int32, sizes: nat -> int32, turn: nat, offset: nat): (seq<T>, ResultCode)
    requires offset <= |visible| && forall t :: sizes(t) > 0
    decreases |visible| - offset
  {
    var (sent, code) := SendCount(|visible| - offset, sizeLimit, sizes(turn));
    var next := offset + sent;
    if code == SUCCESS && next < |visible| then
      Prepend(visible[offset..next], Follow(visible, sizeLimit, sizes, turn + 1, next))
    else (visible[offset..next], code)
  }

  /** With no size limit, or one above every page size, every entry arrives exactly once and in order. */
  lemma {:induction false} FollowReceivesAll<T>(visible: seq<T>, sizeLimit: int32, sizes: nat -> int32, turn: nat, offset: nat)
    requires offset <= |visible| && forall t :: sizes(t) > 0
    requires sizeLimit <= 0 || forall t :: sizes(t) < sizeLimit
    ensures Follow(visible, sizeLimit, sizes, turn, offset) == (visible[offset..], SUCCESS)
    decreases |visible| - offset
  {
    var (sent, code) := SendCount(|visible| - offset, sizeLimit, sizes(turn));
    var next := offset + sent;
    if next < |visible| {
      FollowReceivesAll(visible, sizeLimit, sizes, turn + 1, next);
      assert visible[offset..next] + visible[next..] == visible[offset..];
    } else {
      assert visible[offset..next] == visible[offset..];
    }
  }

  /** With one fixed page size, everything arrives exactly when the size limit is off, above the page size,
      or not below the number of entries; otherwise exactly the first `sizeLimit` arrive. */
  lemma FixedPageSize<T>(visible: seq<T>, sizeLimit: int32, sizes: nat -> int32, size: int32)
    requires size > 0 && forall t :: sizes(t) == size
    ensures Follow(visible, sizeLimit, sizes, 0, 0)
         == if sizeLimit <= 0 || size < sizeLimit || |visible| <= sizeLimit then (visible, SUCCESS)
            else (visible[..sizeLimit], SIZE_LIMIT_EXCEEDED)
  {
    if sizeLimit <= 0 || size < sizeLimit {
      FollowReceivesAll(visible, sizeLimit, sizes, 0, 0);
      assert visible[0..] == visible;
    } else {
      assert visible[0..|visible|] == visible;
    }
  }

  /** The cookie stands for an offset the server accepts. */
  ghost predicate Issued(cookie: Text, offset: nat, total: nat) {
    offset <= total && (if cookie == [] then offset == 0 else offset < total && cookie == ToDecimal(offset))
  }

  /** A page asked for with an issued cookie starts where the last one ended, and its own cookie says where it ends. */
  lemma IssuedPage<T>(visible: seq<T>, sizeLimit: int32, size: int32, cookie: Text, offset: nat, late: nat -> bool)
    requires |visible| < 0x8000_0000 && size > 0 && Issued(cookie, offset, |visible|)
    ensures var (sent, code) := TimedCount(|visible| - offset, sizeLimit, size, late);
            var next := offset + sent;
            && next <= |visible|
            && ServePage(visible, sizeLimit, PagedValue(size, cookie), late)
               == Page(visible[offset..next], code,
                       Some(PagedValue(|visible| - next, NextCookie(next, |visible|, code))))
            && (0 < next < |visible| && code != SIZE_LIMIT_EXCEEDED ==>
                  Issued(NextCookie(next, |visible|, code), next, |visible|))
  {
    hide PagedValue, ReadPagedValue, WholeNonNegative, ToDecimal, TimedCount;
    CookieValueRoundTrip(size, offset);
    assert ToInt32(offset) == offset;
    CountBound(|visible| - offset, sizeLimit, size, late);
    var next := offset + TimedCount(|visible| - offset, sizeLimit, size, late).0;
    CookieValueRoundTrip(size, next);
  }

  lemma CountBound(available: nat, sizeLimit: int32, size: int32, late: nat -> bool)
    ensures TimedCount(available, sizeLimit, size, late).0 <= available
  {
  }

  /** The cookie in a response control: empty at the end or at the size limit, otherwise the next offset. */
  lemma CookieBack(total: nat, next: nat, code: ResultCode)
    requires next <= total < 0x8000_0000
    ensures var cookie := NextCookie(next, total, code);
            && ReadPagedValue(PagedValue(total - next, cookie)) == Some(PageRequest(total - next, cookie))
            && (cookie == [] <==> next == total || code == SIZE_LIMIT_EXCEEDED)
            && (cookie != [] && next > 0 ==> Issued(cookie, next, total))
  {
    hide PagedValue, ReadPagedValue, ToDecimal;
    CookieValueRoundTrip(total - next, next);
  }

  /** Each remainder is below the one before. */
  ghost predicate Falling(remainders: seq<int32>) {
    forall i, j :: 0 <= i < j < |remainders| ==> remainders[i] > remainders[j]
  }

  lemma FallsFurther(remainders: seq<int32>, next: int32)
    requires Falling(remainders) && forall r <- remainders :: r > next
    ensures Falling(remainders + [next])
  {
    assert forall i :: 0 <= i < |remainders| ==> remainders[i] in remainders;
  }

  /** A page without a deadline. */
  lemma PlainPage<T>(visible: seq<T>, sizeLimit: int32, size: int32, cookie: Text, offset: nat, late: nat -> bool)
    requires |visible| < 0x8000_0000 && size > 0 && Issued(cookie, offset, |visible|) && forall k :: !late(k)
    ensures var (sent, code) := SendCount(|visible| - offset, sizeLimit, size);
            var next := offset + sent;
            && next <= |visible|
            && ServePage(visible, sizeLimit, PagedValue(size, cookie), late)
               == Page(visible[offset..next], code, Some(PagedValue(|visible| - next, NextCookie(next, |visible|, code))))
  {
    hide ServePage, PagedValue, NextCookie, TimedCount;
    NoDeadline(|visible| - offset, sizeLimit, size, late);
    IssuedPage(visible, sizeLimit, size, cookie, offset, late);
  }

  /** The client: ask, collect, take the cookie from the response control, until it is empty or the search fails. */
  method PagedSearch<T>(visible: seq<T>, sizeLimit: int32, sizes: nat -> int32, late: nat -> bool)
    returns (received: seq<T>, result: ResultCode, remainders: seq<int32>)
    requires |visible| < 0x8000_0000 && (forall t :: sizes(t) > 0) && forall k :: !late(k)
    ensures (received, result) == Follow(visible, sizeLimit, sizes, 0, 0)
    ensures forall i, j :: 0 <= i < j < |remainders| ==> remainders[i] > remainders[j]
    ensures result == SUCCESS ==> remainders != [] && remainders[|remainders| - 1] == 0
  {
    hide PagedValue, ReadPagedValue, ServePage, Prepend, NextCookie, Falling, ToDecimal;
    received, remainders, result := [], [], SUCCESS;
    var cookie: Text := [];
    var turn: nat := 0;
    ghost var offset: nat := 0;
    PrependNothing(Follow(visible, sizeLimit, sizes, 0, 0));
    FallingIs([]);
    while true
      invariant Issued(cookie, offset, |visible|)
      invariant Follow(visible, sizeLimit, sizes, 0, 0)
             == Prepend(received, Follow(visible, sizeLimit, sizes, turn, offset))
      invariant Falling(remainders) && forall r <- remainders :: r >= |visible| - offset
      invariant if turn == 0 then remainders == [] else offset < |visible|
      decreases |visible| - offset + if turn == 0 then 1 else 0
    {
      var size := sizes(turn);
      var page := AnswerPage(visible, sizeLimit, PagedValue(size, cookie), late);
      PlainPage(visible, sizeLimit, size, cookie, offset, late);
      ghost var next := offset + SendCount(|visible| - offset, sizeLimit, size).0;
      PrependLast(received, page.entries, page.code);
      PrependTwice(received, page.entries, Follow(visible, sizeLimit, sizes, turn + 1, next));
      received, result := received + page.entries, page.code;
      CookieBack(|visible|, next, result);
      var answer := ReadPagedValue(page.control.value).value;
      FallsFurther(remainders, answer.size);
      cookie, remainders := answer.cookie, remainders + [answer.size];
      turn, offset := turn + 1, next;
      if cookie == [] || result != SUCCESS {
        FallingIs(remainders);
        return;
      }
    }
  }

  lemma FallingIs(remainders: seq<int32>)
    ensures Falling(remainders) <==> forall i, j :: 0 <= i < j < |remainders| ==> remainders[i] > remainders[j]
    ensures Falling([])
  {
  }

  /** A request that carries the control value: decoded, then answered. */
  method AnswerPage<T>(visible: seq<T>, sizeLimit: int32, control: Text, late: nat -> bool) returns (page: Page<T>)
    requires |visible| < 0x8000_0000
    ensures page == ServePage(visible, sizeLimit, control, late)
  {
    hide PageOf;
    match ReadPagedValue(control) {
      case None => page := InvalidControl;
      case Some(r) => page := SendPage(visible, sizeLimit, r.size, r.cookie, late);
    }
  }
}
