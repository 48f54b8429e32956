/**
 * Public identifier allocation of the merge route (index.js:840-912).
 *
 * `safeRandomId` draws `length` random bytes, maps each onto the 66-symbol
 * alphabet, and retries with one more symbol on a collision. `hashId` uses the
 * full SHA-256 hex digest of the upload, or with `short_hash` its shortest
 * prefix (from 4 characters) that is not taken.
 *
 * The random generator is an infinite byte stream `draw` consumed in order; the
 * per-query database errors are `fails(k)` for the k-th query. The symbol a byte
 * becomes is a parameter, so that the search is stated once for the mapping the
 * code performs (`StoredSymbol`) and for the one it intends (`IntendedSymbol`).
 */
module IdAlloc {
  import opened Wrappers
  import opened Bytes
  import Filenames

  /** Symbol k of `validChars` (index.js:42): 'A'-'Z', 'a'-'z', '0'-'9', then '-', '_', '.', '~'. */
  function AlphabetSymbol(k: int): char
    requires 0 <= k < 66
  {
    if k < 26 then ('A' as int + k) as char
    else if k < 52 then ('a' as int + (k - 26)) as char
    else if k < 62 then ('0' as int + (k - 52)) as char
    else "-_.~"[k - 62]
  }

  /** The 66 symbols: `validChars.length` is 66, so a byte is reduced modulo 66. */
  function ValidChars(): (s: string)
    ensures |s| == 66
  {
    seq(66, AlphabetSymbol)
  }

  const INITIAL_LENGTH: nat := 4
  const MAX_LENGTH: nat := 64
  const MAX_RETRIES: nat := 10
  const SHORT_HASH_START: nat := 4

  /** `validChars[c % validChars.length]`. */
  function IntendedSymbol(b: byte): char
  {
    ValidChars()[b as int % |ValidChars()|]
  }

  predicate IsDigit(c: char)
  {
    '0' <= c <= '9'
  }

  /**
   * `Buffer.map` builds another Buffer, so the symbol is stored as a byte:
   * ToNumber of a digit is its value, of any other symbol NaN, stored as 0.
   */
  function StoredByte(c: char): byte
  {
    if IsDigit(c) then (c as int - '0' as int) as byte else 0
  }

  /** `join('')` of that Buffer writes each byte in decimal; here every byte is below 10. */
  function StoredSymbol(b: byte): char
  {
    var v := StoredByte(IntendedSymbol(b));
    (v as int + '0' as int) as char
  }

  /** Bytes the i-th attempt's draw starts at: attempt j consumes 4 + j bytes. */
  function Offset(k: nat): nat
  {
    if k == 0 then 0 else Offset(k - 1) + INITIAL_LENGTH + (k - 1)
  }

  /** The id proposed by attempt k: 4 + k symbols from the stream. */
  function Candidate(draw: nat -> byte, symbol: byte -> char, k: nat): (id: string)
    ensures |id| == INITIAL_LENGTH + k
  {
    seq(INITIAL_LENGTH + k, j requires 0 <= j => symbol(draw(Offset(k) + j)))
  }

  /** Attempt k went through the database and found its candidate already taken. */
  predicate Collides(existing: set<string>, draw: nat -> byte, fails: nat -> bool, symbol: byte -> char, k: nat)
  {
    !fails(k) && Candidate(draw, symbol, k) in existing
  }

  /**
   * The search started at attempt `from` stops without an id at attempt m: every
   * attempt before m collided, and m is either past the retry limit or failed.
   */
  predicate StopsWithout(existing: set<string>, draw: nat -> byte, fails: nat -> bool, symbol: byte -> char, from: nat, m: nat)
  {
    from <= m <= MAX_RETRIES + 1
    && (forall j :: from <= j < m ==> Collides(existing, draw, fails, symbol, j))
    && (m == MAX_RETRIES + 1 || fails(m))
  }

  /** One recursion step of `safeRandomId` at attempt `retryCount` (length 4 + retryCount). */
  function RandomIdFrom(existing: set<string>, draw: nat -> byte, fails: nat -> bool, symbol: byte -> char, retryCount: nat)
    : (r: Option<string>)
    requires retryCount <= MAX_RETRIES + 1
    decreases MAX_RETRIES + 1 - retryCount
    ensures r.Some? ==>
      |r.value| >= INITIAL_LENGTH + retryCount && |r.value| - INITIAL_LENGTH <= MAX_RETRIES
      && r.value == Candidate(draw, symbol, |r.value| - INITIAL_LENGTH)
      && !fails(|r.value| - INITIAL_LENGTH) && r.value !in existing
      && forall j :: retryCount <= j < |r.value| - INITIAL_LENGTH ==> Collides(existing, draw, fails, symbol, j)
    ensures r.None? ==> exists m :: StopsWithout(existing, draw, fails, symbol, retryCount, m)
  {
    var length := INITIAL_LENGTH + retryCount;
    if length > MAX_LENGTH || retryCount > MAX_RETRIES then
      assert StopsWithout(existing, draw, fails, symbol, retryCount, retryCount);
      None
    else
      var id := Candidate(draw, symbol, retryCount);
      if fails(retryCount) then
        assert StopsWithout(existing, draw, fails, symbol, retryCount, retryCount);
        None
      else if id !in existing then Some(id)
      else
        var r := RandomIdFrom(existing, draw, fails, symbol, retryCount + 1);
        assert Collides(existing, draw, fails, symbol, retryCount);
        assert r.None? ==> exists m :: StopsWithout(existing, draw, fails, symbol, retryCount, m) by {
          if r.None? {
            var m: nat :| StopsWithout(existing, draw, fails, symbol, retryCount + 1, m);
            assert StopsWithout(existing, draw, fails, symbol, retryCount, m);
          }
        }
        r
  }

  /** `safeRandomId()`: false (`None`) after a database error or eleven collisions in a row. */
  function SafeRandomId(existing: set<string>, draw: nat -> byte, fails: nat -> bool, symbol: byte -> char): (r: Option<string>)
    ensures r.Some? ==> r.value !in existing
    ensures r.Some? ==> INITIAL_LENGTH <= |r.value| <= INITIAL_LENGTH + MAX_RETRIES
    ensures r.Some? ==> forall j :: 0 <= j < |r.value| - INITIAL_LENGTH ==> Collides(existing, draw, fails, symbol, j)
    ensures r.Some? ==> r.value == Candidate(draw, symbol, |r.value| - INITIAL_LENGTH)
  {
    RandomIdFrom(existing, draw, fails, symbol, 0)
  }

  /** The id is four symbols long plus one per collision, and `None` only when a query failed or all eleven attempts collided. */
  lemma SafeRandomIdOutcome(existing: set<string>, draw: nat -> byte, fails: nat -> bool, symbol: byte -> char)
    ensures SafeRandomId(existing, draw, fails, symbol).None? <==> exists m :: StopsWithout(existing, draw, fails, symbol, 0, m)
  {
    var r := SafeRandomId(existing, draw, fails, symbol);
    if r.Some? {
      var n := |r.value| - INITIAL_LENGTH;
      assert !Collides(existing, draw, fails, symbol, n);
      forall m: nat ensures !StopsWithout(existing, draw, fails, symbol, 0, m) {
        if m < n {
          assert Collides(existing, draw, fails, symbol, m);
        } else if m > n {
          assert !Collides(existing, draw, fails, symbol, n);
        }
      }
    }
  }

  /** Every symbol the intended mapping produces is in the alphabet, and each of the 66 is reachable. */
  lemma IntendedSymbolCoversAlphabet()
    ensures forall b: byte :: IntendedSymbol(b) in ValidChars()
    ensures forall i :: 0 <= i < |ValidChars()| ==> IntendedSymbol(i as byte) == ValidChars()[i]
  {
  }

  /** As written, every symbol is a decimal digit, and 57 of the 66 residues (224 of the 256 byte values) produce '0'. */
  lemma StoredSymbolIsDigit()
    ensures forall b: byte :: IsDigit(StoredSymbol(b)) && StoredSymbol(b) in ValidChars()
    ensures forall b: byte :: (b as int % 66 < 53 || b as int % 66 >= 62) ==> StoredSymbol(b) == '0'
    ensures StoredSymbol(0) == '0' && IntendedSymbol(0) == 'A'
  {
    forall k | 0 <= k < |ValidChars()| ensures ValidChars()[k] == AlphabetSymbol(k) {
    }
    forall b: byte ensures IsDigit(StoredSymbol(b)) && StoredSymbol(b) in ValidChars() {
      var v := StoredByte(IntendedSymbol(b));
      assert 0 <= v < 10;
      assert StoredSymbol(b) == ValidChars()[52 + v as int];
    }
  }

  /**
   * An id without '.' (the digit ids `safeRandomId` produces as written, or a hex
   * digest) is downloadable under its own name: the key strip leaves it intact.
   */
  lemma DotFreeIdsSurviveDownloadStrip(id: string)
    requires forall i :: 0 <= i < |id| ==> id[i] != '.'
    ensures Filenames.StripDownloadExtension(id) == id
  {
    if |id| >= 4 {
      assert id[|id| - 4] != '.';
    }
  }

  // ---- hashId / shortenHash ----

  /** The prefix search started at length `from` stops without a result at length m. */
  predicate PrefixSearchStops(hash: string, existing: set<string>, fails: nat -> bool, from: nat, m: nat)
  {
    from <= m && (m >= |hash| || fails(m))
    && forall j :: from <= j < m ==> j < |hash| && !fails(j) && hash[..j] in existing
  }

  /** A taken prefix of length i extends a stop found from length i + 1 to one from i. */
  lemma PrefixSearchStopsEarlier(hash: string, existing: set<string>, fails: nat -> bool, i: nat, m: nat)
    requires PrefixSearchStops(hash, existing, fails, i + 1, m)
    requires i < |hash| && !fails(i) && hash[..i] in existing
    ensures PrefixSearchStops(hash, existing, fails, i, m)
  {
    forall j | i <= j < m ensures j < |hash| && !fails(j) && hash[..j] in existing {
      if j > i {
        assert i + 1 <= j < m;
        assert !fails(j);
      }
    }
    assert i <= m && (m >= |hash| || fails(m));
  }

  /** `checkLength(i)`: returns the first prefix of length >= i that is free, never the whole digest. */
  function ShortenFrom(hash: string, existing: set<string>, fails: nat -> bool, i: nat): (r: Option<string>)
    decreases |hash| - i
    ensures r.Some? ==>
      i <= |r.value| < |hash| && r.value == hash[..|r.value|] && r.value !in existing && !fails(|r.value|)
      && forall j :: i <= j < |r.value| ==> !fails(j) && hash[..j] in existing
    ensures r.None? ==> exists m :: PrefixSearchStops(hash, existing, fails, i, m)
  {
    if i >= |hash| || fails(i) then
      assert PrefixSearchStops(hash, existing, fails, i, i);
      None
    else if hash[..i] !in existing then Some(hash[..i])
    else
      var r := ShortenFrom(hash, existing, fails, i + 1);
      assert r.None? ==> exists m :: PrefixSearchStops(hash, existing, fails, i, m) by {
        if r.None? {
          assert i < |hash| && !fails(i) && hash[..i] in existing;
          var m: nat :| PrefixSearchStops(hash, existing, fails, i + 1, m);
          PrefixSearchStopsEarlier(hash, existing, fails, i, m);
        }
      }
      r
  }

  /** `shortenHash`: the search starts at 4 characters; query k is the one for length k. */
  function ShortenHash(hash: string, existing: set<string>, fails: nat -> bool): (r: Option<string>)
    ensures r.Some? ==> SHORT_HASH_START <= |r.value| < |hash| && r.value == hash[..|r.value|] && r.value !in existing
    ensures r.Some? ==> forall j :: SHORT_HASH_START <= j < |r.value| ==> hash[..j] in existing
  {
    ShortenFrom(hash, existing, fails, SHORT_HASH_START)
  }

  /** Without database errors the result is the shortest free prefix, and `None` only when every proper prefix from 4 on is taken. */
  lemma ShortenHashIsShortestFreePrefix(hash: string, existing: set<string>, fails: nat -> bool)
    requires forall k :: !fails(k)
    ensures var r := ShortenHash(hash, existing, fails);
      r.None? <==> forall j :: SHORT_HASH_START <= j < |hash| ==> hash[..j] in existing
  {
    var r := ShortenHash(hash, existing, fails);
    if r.Some? {
      assert hash[..|r.value|] !in existing;
    }
  }

  /**
   * `hashId`: the hex digest of original name, clock (milliseconds, in decimal),
   * secret and remote address; shortened when `short_hash` is set.
   */
  function HashId(originalFileName: string, nowMillis: string, secret: string, remoteAddress: string,
                  shortHash: bool, sha256: string -> string, existing: set<string>, fails: nat -> bool): (r: Option<string>)
    ensures !shortHash ==> r == Some(sha256(originalFileName + nowMillis + secret + remoteAddress))
    ensures shortHash ==> r == ShortenHash(sha256(originalFileName + nowMillis + secret + remoteAddress), existing, fails)
    ensures shortHash && r.Some? ==>
      var digest := sha256(originalFileName + nowMillis + secret + remoteAddress);
      SHORT_HASH_START <= |r.value| < |digest| && r.value == digest[..|r.value|] && r.value !in existing
  {
    var digest := sha256(originalFileName + nowMillis + secret + remoteAddress);
    if shortHash then ShortenHash(digest, existing, fails) else Some(digest)
  }
}
