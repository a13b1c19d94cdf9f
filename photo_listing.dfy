/** `CameraCaptureSystem.get_all_photos` and `get_latest_photo`
    (src/camera_capture.py:444-453): the directory listing filtered to
    `photo_*.jpg` names and sorted, newest first, by the number between the
    first '_' and the following '.', read with Python's `int()`. */
module PhotoListing {

  import opened Wrappers
  import opened PhotoNames

  predicate StartsWith(s: string, p: string)
  {
    |p| <= |s| && s[..|p|] == p
  }

  predicate EndsWith(s: string, p: string)
  {
    |p| <= |s| && s[|s| - |p|..] == p
  }

  /** `f.startswith('photo_') and f.endswith('.jpg')`. */
  predicate IsListed(f: string)
  {
    StartsWith(f, Prefix) && EndsWith(f, Extension)
  }

  /** The listing entries that pass the filter, in listing order. */
  function Candidates(listing: seq<string>): (r: seq<string>)
    ensures |r| <= |listing|
    ensures forall f :: f in r <==> f in listing && IsListed(f)
  {
    if listing == [] then []
    else (if IsListed(listing[0]) then [listing[0]] else []) + Candidates(listing[1..])
  }

  /** `s.split(c)[0]`: the text before the first `c`, or all of `s`. */
  function BeforeFirst(s: string, c: char): (r: string)
    ensures |r| <= |s| && r == s[..|r|] && c !in r
    ensures |r| < |s| ==> s[|r|] == c
  {
    if s == [] || s[0] == c then [] else [s[0]] + BeforeFirst(s[1..], c)
  }

  /** `s.split(c)[1]` for an `s` that holds `c`: the text between the first
      `c` and the next one (or the end). */
  function SecondField(s: string, c: char): (r: string)
    requires c in s
    ensures c !in r
  {
    var first := BeforeFirst(s, c);
    BeforeFirst(s[|first| + 1..], c)
  }

  /** The characters `str.strip()` removes that can be written in ASCII. */
  predicate IsSpace(ch: char)
  {
    ch == ' ' || 9 <= ch as int <= 13 || 28 <= ch as int <= 31
  }

  function StripLeft(s: string): (r: string)
    ensures |r| <= |s| && r == s[|s| - |r|..]
    ensures r == [] || !IsSpace(r[0])
  {
    if s != [] && IsSpace(s[0]) then StripLeft(s[1..]) else s
  }

  function StripRight(s: string): (r: string)
    ensures |r| <= |s| && r == s[..|r|]
    ensures r == [] || !IsSpace(r[|r| - 1])
  {
    if s != [] && IsSpace(s[|s| - 1]) then StripRight(s[..|s| - 1]) else s
  }

  function Strip(s: string): string
  {
    StripRight(StripLeft(s))
  }

  /** `int(s)` on text that holds no '_' (the field was split on '_', so
      digit grouping cannot occur): surrounding white space, then an optional
      sign and one or more digits; anything else raises `ValueError`, here
      `None`. */
  function ParseInt(s: string): (r: Option<int>)
    requires '_' !in s
    ensures r.Some? ==> var t := Strip(s);
      t != [] && AllDigits(t[1..]) && (IsDigit(t[0]) || (|t| > 1 && (t[0] == '+' || t[0] == '-')))
    ensures r.Some? ==> (r.value < 0 ==> Strip(s)[0] == '-')
  {
    var t := Strip(s);
    if t == [] then None
    else if t[0] == '+' || t[0] == '-' then
      var d := t[1..];
      if d != [] && AllDigits(d) then Some(if t[0] == '-' then -(DecimalValue(d) as int) else DecimalValue(d)) else None
    else if AllDigits(t) then Some(DecimalValue(t))
    else None
  }

  /** `int(x.split('_')[1].split('.')[0])`, or `None` where that raises. */
  function SortKey(f: string): Option<int>
    requires IsListed(f)
  {
    assert f[0] == '_' || '_' in f by { assert f[5] == Prefix[5]; }
    ParseInt(BeforeFirst(SecondField(f, '_'), '.'))
  }

  /** On a listed name, `split('_')[1]` starts right after the prefix. */
  lemma SecondFieldOfListed(f: string)
    requires IsListed(f)
    ensures '_' in f && SecondField(f, '_') == BeforeFirst(f[|Prefix|..], '_')
  {
    assert f[..|Prefix|] == Prefix;
    assert f == "photo" + f[5..];
    assert f[5..][0] == '_';
    BeforeFirstConcat("photo", f[5..], '_');
  }

  predicate Keyed(f: string)
  {
    IsListed(f) && SortKey(f).Some?
  }

  function Key(f: string): int
    requires Keyed(f)
  {
    SortKey(f).value
  }

  predicate AllKeyed(s: seq<string>)
  {
    forall i :: 0 <= i < |s| ==> Keyed(s[i])
  }

  predicate Descending(s: seq<string>)
    requires AllKeyed(s)
  {
    forall i, j :: 0 <= i < j < |s| ==> Key(s[i]) >= Key(s[j])
  }

  /** A name paired with its sort key, as `sorted` computes each key once
      before it compares. */
  datatype Entry = Entry(name: string, key: int)

  predicate SortedDesc(es: seq<Entry>)
  {
    forall i, j :: 0 <= i < j < |es| ==> es[i].key >= es[j].key
  }

  function Names(es: seq<Entry>): (r: seq<string>)
    ensures |r| == |es|
  {
    if es == [] then [] else [es[0].name] + Names(es[1..])
  }

  /** Every entry carries the key of its own name. */
  predicate Decorated(es: seq<Entry>)
  {
    forall e :: e in es ==> Keyed(e.name) && e.key == Key(e.name)
  }

  /** The key computation of `sorted`, applied to every element in order. */
  function Decorate(s: seq<string>): (r: seq<Entry>)
    requires AllKeyed(s)
    ensures Names(r) == s
    ensures Decorated(r)
  {
    if s == [] then []
    else
      var r := [Entry(s[0], Key(s[0]))] + Decorate(s[1..]);
      assert r[1..] == Decorate(s[1..]);
      r
  }

  /** Places `e` in front of the first entry whose key does not exceed its
      own. */
  function Insert(e: Entry, es: seq<Entry>): (r: seq<Entry>)
    ensures |r| == |es| + 1
  {
    if es == [] then [e]
    else if es[0].key <= e.key then [e] + es
    else [es[0]] + Insert(e, es[1..])
  }

  /** Insertion adds `e` and keeps every entry and name that was there. */
  lemma {:induction false} InsertAdds(e: Entry, es: seq<Entry>)
    ensures forall x :: x in Insert(e, es) <==> x == e || x in es
    ensures multiset(Names(Insert(e, es))) == multiset(Names(es)) + multiset{e.name}
  {
    if es != [] {
      var r := Insert(e, es);
      assert es == [es[0]] + es[1..];
      if es[0].key <= e.key {
        assert r[1..] == es;
      } else {
        InsertAdds(e, es[1..]);
        assert r[1..] == Insert(e, es[1..]);
      }
    }
  }

  /** Insertion into a descending sequence leaves it descending. */
  lemma {:induction false} InsertSorted(e: Entry, es: seq<Entry>)
    requires SortedDesc(es)
    ensures SortedDesc(Insert(e, es))
  {
    if es != [] && es[0].key > e.key {
      var rest := Insert(e, es[1..]);
      InsertSorted(e, es[1..]);
      InsertAdds(e, es[1..]);
      assert Insert(e, es) == [es[0]] + rest;
      forall j | 0 <= j < |rest| ensures es[0].key >= rest[j].key {
        assert rest[j] in rest;
      }
      SortedCons(es[0], rest);
    }
  }

  lemma SortedCons(x: Entry, es: seq<Entry>)
    requires SortedDesc(es)
    requires forall j :: 0 <= j < |es| ==> x.key >= es[j].key
    ensures SortedDesc([x] + es)
  {
    forall i, j | 0 <= i < j < |[x] + es| ensures ([x] + es)[i].key >= ([x] + es)[j].key {
      assert ([x] + es)[j] == es[j - 1];
      if i > 0 { assert ([x] + es)[i] == es[i - 1]; }
    }
  }

  /** `sorted(..., reverse=True)`: an insertion sort that keeps entries with
      equal keys in their original order, as Python's does. */
  function SortDescending(es: seq<Entry>): (r: seq<Entry>)
    ensures |r| == |es|
    ensures SortedDesc(r)
  {
    if es == [] then []
    else
      var rest := SortDescending(es[1..]);
      InsertSorted(es[0], rest);
      Insert(es[0], rest)
  }

  /** The sort is a permutation of its input. */
  lemma {:induction false} SortPermutes(es: seq<Entry>)
    ensures forall x :: x in SortDescending(es) <==> x in es
    ensures multiset(Names(SortDescending(es))) == multiset(Names(es))
  {
    if es != [] {
      SortPermutes(es[1..]);
      InsertAdds(es[0], SortDescending(es[1..]));
      assert es == [es[0]] + es[1..];
      assert Names(es)[1..] == Names(es[1..]);
      assert Names(es) == [es[0].name] + Names(es[1..]);
    }
  }

  /** The entries whose key is `k`, in order. */
  function WithKey(es: seq<Entry>, k: int): seq<Entry>
  {
    if es == [] then [] else (if es[0].key == k then [es[0]] else []) + WithKey(es[1..], k)
  }

  lemma {:induction false} InsertKeepsKeyOrder(e: Entry, es: seq<Entry>, k: int)
    ensures WithKey(Insert(e, es), k) == (if e.key == k then [e] else []) + WithKey(es, k)
  {
    var r := Insert(e, es);
    if es == [] {
    } else if es[0].key <= e.key {
      assert r[1..] == es;
    } else {
      assert r[1..] == Insert(e, es[1..]);
      InsertKeepsKeyOrder(e, es[1..], k);
      if es[0].key == k {
        assert e.key != k;
        assert WithKey(r, k) == [es[0]] + WithKey(es[1..], k);
      } else if e.key == k {
        assert WithKey(r, k) == [e] + WithKey(es[1..], k);
      }
    }
  }

  /** The sort is stable: entries with equal keys keep their order. */
  lemma {:induction false} SortIsStable(es: seq<Entry>, k: int)
    ensures WithKey(SortDescending(es), k) == WithKey(es, k)
  {
    if es != [] {
      assert es[1..] == es[1..];
      SortIsStable(es[1..], k);
      InsertKeepsKeyOrder(es[0], SortDescending(es[1..]), k);
    }
  }

  /** The first element of `s` that fails `ok`, or `None` when all pass. */
  function FirstFailing<T>(s: seq<T>, ok: T -> bool): (r: Option<T>)
    ensures r.None? <==> forall i :: 0 <= i < |s| ==> ok(s[i])
    ensures r.Some? ==>
      exists i :: 0 <= i < |s| && s[i] == r.value && !ok(s[i]) && (forall j :: 0 <= j < i ==> ok(s[j]))
  {
    if s == [] then None
    else if !ok(s[0]) then Some(s[0])
    else
      var r := FirstFailing(s[1..], ok);
      assert r.Some? ==>
        exists i :: 0 <= i < |s| && s[i] == r.value && !ok(s[i]) && (forall j :: 0 <= j < i ==> ok(s[j])) by {
        if r.Some? {
          var i :| 0 <= i < |s[1..]| && s[1..][i] == r.value && !ok(s[1..][i]) &&
                   (forall j :: 0 <= j < i ==> ok(s[1..][j]));
          assert s[i + 1] == r.value;
          forall j | 0 < j < i + 1 ensures ok(s[j]) {
            assert s[j] == s[1..][j - 1];
          }
        }
      }
      assert r.None? ==> forall i :: 0 <= i < |s| ==> ok(s[i]) by {
        if r.None? {
          forall i | 0 < i < |s| ensures ok(s[i]) {
            assert s[i] == s[1..][i - 1];
          }
        }
      }
      r
  }

  /** The first candidate whose key `int()` rejects: every candidate before
      it has a key. */
  function FirstUnkeyed(s: seq<string>): (r: Option<string>)
    requires forall i :: 0 <= i < |s| ==> IsListed(s[i])
    ensures r.None? <==> AllKeyed(s)
    ensures r.Some? ==> r.value in s && IsListed(r.value) && SortKey(r.value).None?
    ensures r.Some? ==>
      exists i :: 0 <= i < |s| && s[i] == r.value && (forall j :: 0 <= j < i ==> Keyed(s[j]))
  {
    FirstFailing(s, Keyed)
  }

  /** `get_all_photos()`: `Failure(f)` stands for the `ValueError` raised by
      the key of `f`, the first filtered name that is not a number. */
  function GetAllPhotos(listing: seq<string>): (r: Result<seq<string>, string>)
    ensures r.Failure? <==> exists f :: f in listing && IsListed(f) && !Keyed(f)
    ensures r.Failure? ==> r.error in listing && IsListed(r.error) && !Keyed(r.error)
    ensures r.Success? ==> forall f :: f in r.value <==> f in listing && IsListed(f)
    ensures r.Success? ==> multiset(r.value) == multiset(Candidates(listing))
    ensures r.Success? ==> AllKeyed(r.value) && Descending(r.value)
  {
    var c := Candidates(listing);
    match FirstUnkeyed(c)
    case Some(bad) => Failure(bad)
    case None =>
      var sorted := SortDescending(Decorate(c));
      SortPermutes(Decorate(c));
      SortedNames(sorted);
      assert forall f :: f in Names(sorted) <==> f in multiset(c);
      Success(Names(sorted))
  }

  /** The names of decorated, sorted entries are keyed and descending. */
  lemma SortedNames(es: seq<Entry>)
    requires Decorated(es) && SortedDesc(es)
    ensures AllKeyed(Names(es)) && Descending(Names(es))
  {
    NamesAt(es);
    var ns := Names(es);
    forall i | 0 <= i < |es| ensures Keyed(ns[i]) && Key(ns[i]) == es[i].key {
      assert es[i] in es;
    }
    forall i, j | 0 <= i < j < |ns| ensures Key(ns[i]) >= Key(ns[j]) {
      assert Key(ns[i]) == es[i].key && Key(ns[j]) == es[j].key;
    }
  }

  lemma {:induction false} NamesAt(es: seq<Entry>)
    ensures forall i :: 0 <= i < |es| ==> Names(es)[i] == es[i].name
  {
    if es != [] {
      NamesAt(es[1..]);
    }
  }

  /** Filtering decorated entries by key filters their names the same way. */
  lemma {:induction false} NamesWithKey(es: seq<Entry>, k: int)
    requires Decorated(es)
    ensures AllKeyed(Names(es))
    ensures Names(WithKey(es, k)) == NamesWithKeyOf(Names(es), k)
  {
    NamesAt(es);
    assert AllKeyed(Names(es)) by {
      forall i | 0 <= i < |es| ensures Keyed(Names(es)[i]) {
        assert es[i] in es;
      }
    }
    if es != [] {
      var e := es[0];
      var w := WithKey(es[1..], k);
      assert e in es;
      assert Decorated(es[1..]) by {
        forall x | x in es[1..] ensures x in es { }
      }
      NamesWithKey(es[1..], k);
      assert Names(es)[0] == e.name && Names(es)[1..] == Names(es[1..]);
      if e.key == k {
        assert WithKey(es, k) == [e] + w;
        assert ([e] + w)[1..] == w;
        assert Names([e] + w) == [e.name] + Names(w);
      } else {
        assert WithKey(es, k) == [] + w;
        assert [] + w == w;
      }
    }
  }

  /** The names in `s` whose key is `k`, in order. */
  function NamesWithKeyOf(s: seq<string>, k: int): seq<string>
    requires AllKeyed(s)
  {
    if s == [] then [] else (if Key(s[0]) == k then [s[0]] else []) + NamesWithKeyOf(s[1..], k)
  }

  /** Photos with equal numbers come out in listing order. */
  lemma GetAllPhotosStable(listing: seq<string>, k: int)
    requires GetAllPhotos(listing).Success?
    ensures AllKeyed(Candidates(listing))
    ensures NamesWithKeyOf(GetAllPhotos(listing).value, k) == NamesWithKeyOf(Candidates(listing), k)
  {
    var c := Candidates(listing);
    var d := Decorate(c);
    var sorted := SortDescending(d);
    assert FirstUnkeyed(c).None?;
    assert GetAllPhotos(listing).value == Names(sorted);
    SortPermutes(d);
    SortIsStable(d, k);
    NamesWithKey(d, k);
    NamesWithKey(sorted, k);
  }

  /** `get_latest_photo()`: the first of `get_all_photos()`, or `None`. */
  function GetLatestPhoto(listing: seq<string>): (r: Result<Option<string>, string>)
    ensures r.Failure? <==> exists f :: f in listing && IsListed(f) && !Keyed(f)
    ensures r == Success(None) <==> forall f :: f in listing ==> !IsListed(f)
    ensures r.Success? && r.value.Some? ==>
      var latest := r.value.value;
      latest in listing && Keyed(latest) &&
      forall f :: f in listing && IsListed(f) ==> Keyed(f) && Key(f) <= Key(latest)
    ensures r.Success? && r.value.Some? ==>
      var latest := r.value.value;
      Keyed(latest) && exists i :: FirstWithKeyAt(listing, Key(latest), i) && listing[i] == latest
  {
    match GetAllPhotos(listing)
    case Failure(e) => Failure(e)
    case Success(photos) =>
      if photos == [] then Success(None)
      else
        HeadIsGreatest(photos);
        LatestIsFirstOfGreatest(listing);
        Success(Some(photos[0]))
  }

  /** `listing[i]` is the first listed name whose key is `k`: every listed
      name before it has a smaller key. */
  predicate FirstWithKeyAt(listing: seq<string>, k: int, i: int)
  {
    0 <= i < |listing| && IsListed(listing[i]) &&
    forall j :: 0 <= j < i && IsListed(listing[j]) ==> Keyed(listing[j]) && Key(listing[j]) < k
  }

  /** Ties on the greatest key go to the name listed first, because the sort
      is stable. */
  lemma LatestIsFirstOfGreatest(listing: seq<string>)
    requires GetAllPhotos(listing).Success? && GetAllPhotos(listing).value != []
    ensures var photos := GetAllPhotos(listing).value;
      exists i :: FirstWithKeyAt(listing, Key(photos[0]), i) && listing[i] == photos[0]
  {
    var photos := GetAllPhotos(listing).value;
    var k := Key(photos[0]);
    HeadIsGreatest(photos);
    GetAllPhotosStable(listing, k);
    assert NamesWithKeyOf(photos, k)[0] == photos[0];
    FirstWithKey(listing, k);
  }

  /** The first name with key `k` among the candidates sits at the first
      index of the listing where a listed name has that key. */
  lemma {:induction false} FirstWithKey(listing: seq<string>, k: int)
    requires forall f :: f in listing && IsListed(f) ==> Keyed(f) && Key(f) <= k
    requires AllKeyed(Candidates(listing)) && NamesWithKeyOf(Candidates(listing), k) != []
    ensures exists i :: FirstWithKeyAt(listing, k, i) && listing[i] == NamesWithKeyOf(Candidates(listing), k)[0]
  {
    var f, rest := listing[0], listing[1..];
    var c, c' := Candidates(listing), Candidates(rest);
    assert forall g :: g in rest ==> g in listing;
    assert AllKeyed(c') by {
      forall i | 0 <= i < |c'| ensures Keyed(c'[i]) { assert c'[i] in c'; }
    }
    if IsListed(f) {
      assert c == [f] + c';
      assert c[0] == f && c[1..] == c';
    } else {
      assert c == c';
    }
    if IsListed(f) && Key(f) == k {
      assert FirstWithKeyAt(listing, k, 0);
    } else {
      assert NamesWithKeyOf(c, k) == NamesWithKeyOf(c', k);
      FirstWithKey(rest, k);
      var i :| FirstWithKeyAt(rest, k, i) && rest[i] == NamesWithKeyOf(c', k)[0];
      FirstWithKeyShift(listing, k, i);
    }
  }

  lemma FirstWithKeyShift(listing: seq<string>, k: int, i: int)
    requires listing != [] && FirstWithKeyAt(listing[1..], k, i)
    requires IsListed(listing[0]) ==> Keyed(listing[0]) && Key(listing[0]) < k
    ensures FirstWithKeyAt(listing, k, i + 1) && listing[i + 1] == listing[1..][i]
  {
    forall j | 0 < j < i + 1 && IsListed(listing[j]) ensures Keyed(listing[j]) && Key(listing[j]) < k {
      assert listing[j] == listing[1..][j - 1];
    }
  }

  /** The head of a descending list of keyed names has the greatest key. */
  lemma HeadIsGreatest(photos: seq<string>)
    requires photos != [] && AllKeyed(photos) && Descending(photos)
    ensures forall f :: f in photos ==> Keyed(f) && Key(f) <= Key(photos[0])
  {
    forall f | f in photos ensures Keyed(f) && Key(f) <= Key(photos[0]) {
      var i :| 0 <= i < |photos| && photos[i] == f;
    }
  }

  /** The names the capture system writes pass the filter and sort by the
      number written into them. */
  lemma PhotoNameKey(n: nat)
    ensures IsListed(PhotoName(n))
    ensures Keyed(PhotoName(n)) && Key(PhotoName(n)) == n
  {
    var digits := DecimalString(n);
    ConcatSplit(Prefix + digits, Extension);
    assert PhotoName(n)[..|Prefix|] == Prefix;
    KeyFieldOfDigits(digits, Extension);
    ParseIntReadsDigits(digits);
    DecimalRoundTrip(n);
  }

  /** `BeforeFirst` stops at the first `c` of `b` when `a` holds none. */
  lemma {:induction false} BeforeFirstConcat(a: string, b: string, c: char)
    requires c !in a && (b == [] || b[0] == c)
    ensures BeforeFirst(a + b, c) == a
  {
    if a != [] {
      assert (a + b)[1..] == a[1..] + b;
      BeforeFirstConcat(a[1..], b, c);
    }
  }

  /** `strip()` leaves text alone whose ends are not white space. */
  lemma StripKeeps(t: string)
    requires t != [] && !IsSpace(t[0]) && !IsSpace(t[|t| - 1])
    ensures Strip(t) == t
  {
  }

  /** `int()` reads a plain run of digits. */
  lemma ParseIntReadsDigits(d: string)
    requires |d| > 0 && AllDigits(d)
    ensures ParseInt(d) == Some(DecimalValue(d))
  {
    StripKeeps(d);
  }

  /** `int()` reads a run of digits after a sign. */
  lemma ParseIntReadsSigned(t: string)
    requires |t| > 1 && (t[0] == '+' || t[0] == '-') && AllDigits(t[1..])
    ensures ParseInt(t) == Some(if t[0] == '-' then -(DecimalValue(t[1..]) as int) else DecimalValue(t[1..]))
  {
    assert t[|t| - 1] == t[1..][|t| - 2];
    StripKeeps(t);
  }

  /** `BeforeFirst` passes over a prefix that holds no `c`. */
  lemma {:induction false} BeforeFirstSkips(a: string, b: string, c: char)
    requires c !in a
    ensures BeforeFirst(a + b, c) == a + BeforeFirst(b, c)
  {
    if a != [] {
      assert (a + b)[1..] == a[1..] + b;
      BeforeFirstSkips(a[1..], b, c);
      assert a == [a[0]] + a[1..];
    } else {
      assert a + b == b;
    }
  }

  /** The text the sort key reads from `photo_<digits>.<anything>`. */
  lemma KeyFieldOfDigits(digits: string, tail: string)
    requires AllDigits(digits)
    requires tail != [] && tail[0] == '.'
    ensures '_' in Prefix + digits + tail
    ensures BeforeFirst(SecondField(Prefix + digits + tail, '_'), '.') == digits
  {
    var name := Prefix + digits + tail;
    assert name == "photo" + ("_" + (digits + tail));
    BeforeFirstConcat("photo", "_" + (digits + tail), '_');
    ConcatSplit("photo_", digits + tail);
    assert name[6..] == digits + tail;
    assert '_' !in digits && '.' !in digits;
    BeforeFirstSkips(digits, tail, '_');
    var field := BeforeFirst(tail, '_');
    assert tail == [tail[0]] + tail[1..];
    assert field == [tail[0]] + BeforeFirst(tail[1..], '_');
    assert SecondField(name, '_') == digits + field;
    BeforeFirstConcat(digits, field, '.');
  }

  /** A listed name that the capture-number pattern also accepts sorts by
      the number that pattern reads: the two parsers agree on such names. */
  lemma MatchedNamesSortByNumber(name: string, digits: string, rest: string)
    requires |digits| > 0 && AllDigits(digits)
    requires name == Prefix + digits + Extension + rest && IsListed(name)
    ensures MatchPhotoNumber(name) == Some(DecimalValue(digits))
    ensures Keyed(name) && Key(name) == MatchPhotoNumber(name).value
  {
    MatchAcceptsPhotoNames(digits, rest);
    ListedNameKey(name, digits, rest);
  }

  /** A listed `photo_<digits>.jpg<rest>` is keyed by its digits. */
  lemma ListedNameKey(name: string, digits: string, rest: string)
    requires |digits| > 0 && AllDigits(digits)
    requires name == Prefix + digits + Extension + rest && IsListed(name)
    ensures Keyed(name) && Key(name) == DecimalValue(digits)
  {
    ConcatAssoc(Prefix + digits, Extension, rest);
    KeyOfDigits(name, digits, Extension + rest);
  }

  /** A listed `photo_<digits><tail>` with `tail` starting with '.' is keyed
      by its digits. */
  lemma KeyOfDigits(name: string, digits: string, tail: string)
    requires |digits| > 0 && AllDigits(digits)
    requires tail != [] && tail[0] == '.'
    requires name == Prefix + digits + tail && IsListed(name)
    ensures Keyed(name) && Key(name) == DecimalValue(digits)
  {
    KeyFieldOfDigits(digits, tail);
    ParseIntReadsDigits(digits);
  }

  lemma ConcatAssoc(a: string, b: string, c: string)
    ensures a + b + c == a + (b + c)
  {
  }

  /** A photo whose number exceeds every listed one becomes the latest. */
  lemma NewestCaptureIsLatest(listing: seq<string>, n: nat)
    requires forall f :: f in listing && IsListed(f) ==> Keyed(f) && Key(f) < n
    ensures GetLatestPhoto(listing + [PhotoName(n)]) == Success(Some(PhotoName(n)))
  {
    var after := listing + [PhotoName(n)];
    PhotoNameKey(n);
    assert forall f :: f in after <==> f in listing || f == PhotoName(n);
    var r := GetLatestPhoto(after);
    assert r.Success?;
    assert r != Success(None) by { assert PhotoName(n) in after; }
    var latest := r.value.value;
    assert Key(latest) >= n;
  }
}
