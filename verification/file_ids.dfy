/**
 * `generate_fid` of app.py: 24 characters drawn from the 62 ASCII letters and
 * digits, with a retry loop that is meant to redraw while the candidate is
 * already taken.
 *
 * Randomness is a supplied stream `rng`: draw number `k` of random.choices
 * uses the stream's entries `24 * k .. 24 * k + 23`, each reduced modulo 62 to
 * an index into the alphabet.
 */
module FileIds {

  /** `string.ascii_lowercase`, `string.ascii_uppercase` and `string.digits` */
  const Lowercase: string := "abcdefghijklmnopqrstuvwxyz"
  const Uppercase: string := "ABCDEFGHIJKLMNOPQRSTUVWXYZ"
  const Digits: string := "0123456789"

  /** `string.ascii_letters + string.digits` */
  const Alphabet: string := Lowercase + Uppercase + Digits

  /** The `k=24` of random.choices. */
  const FidLength: nat := 24

  /** An ASCII letter or digit, the class `[A-Za-z0-9]`. */
  predicate IsAlnum(c: char) {
    'a' <= c <= 'z' || 'A' <= c <= 'Z' || '0' <= c <= '9'
  }

  /** Every character of the alphabet is a letter or a digit, and '.' is not among them. */
  lemma AlphabetIsAlnum(c: char)
    requires c in Alphabet
    ensures IsAlnum(c)
  {
    if c in Lowercase {
      assert 'a' <= c <= 'z';
    } else if c in Uppercase {
      assert 'A' <= c <= 'Z';
    } else {
      assert c in Digits;
    }
  }

  /** A well-formed file id: 24 characters, each a letter or a digit. */
  predicate IsFid(s: string) {
    |s| == FidLength && forall i :: 0 <= i < |s| ==> IsAlnum(s[i])
  }

  /** `random.choices(population, k=k)`, reading the stream from `offset` on. */
  function RandomChoices(population: string, k: nat, rng: nat -> nat, offset: nat): (r: seq<char>)
    requires |population| > 0
    ensures |r| == k
    ensures forall i :: 0 <= i < k ==> r[i] in population
  {
    seq(k, i requires 0 <= i < k => population[rng(offset + i) % |population|])
  }

  /** The candidate id of draw number `attempt`, already joined into a string. */
  function Candidate(rng: nat -> nat, attempt: nat): (c: string)
    ensures IsFid(c)
  {
    var c := RandomChoices(Alphabet, FidLength, rng, attempt * FidLength);
    assert forall i :: 0 <= i < |c| ==> IsAlnum(c[i]) by {
      forall i | 0 <= i < |c| ensures IsAlnum(c[i]) {
        AlphabetIsAlnum(c[i]);
      }
    }
    c
  }

  /** No file id holds a '.', so cutting an id at its first '.' leaves it whole. */
  lemma FidHasNoDot(s: string)
    requires IsFid(s)
    ensures '.' !in s
  {
  }

  /**
   * The Python values that meet in the test `file_id in entries`: the candidate
   * is a list of one-character strings, each entry an asyncpg Record holding
   * one `file_id` column.
   */
  datatype PyValue = CharList(chars: seq<char>) | FileIdRecord(fileId: string)

  /**
   * Python `==` on these values: lists compare element-wise, Records by their
   * column, and a list never equals a Record.
   */
  function PyEquals(a: PyValue, b: PyValue): (r: bool)
    ensures r <==> a == b
    ensures a.CharList? != b.CharList? ==> !r
  {
    match (a, b)
    case (CharList(x), CharList(y)) => x == y
    case (FileIdRecord(x), FileIdRecord(y)) => x == y
    case _ => false
  }

  /** Python `x in xs` on a list. */
  predicate PyIn(x: PyValue, xs: seq<PyValue>) {
    exists i :: 0 <= i < |xs| && PyEquals(x, xs[i])
  }

  /** The result of `SELECT file_id FROM files` over a table with these ids. */
  function FetchFileIds(ids: seq<string>): seq<PyValue> {
    seq(|ids|, i requires 0 <= i < |ids| => FileIdRecord(ids[i]))
  }

  /** The collision test as written: the character list against the fetched Records. */
  predicate AsWrittenCollides(ids: seq<string>, candidate: string) {
    PyIn(CharList(candidate), FetchFileIds(ids))
  }

  /** The collision test as intended: the joined string against the stored ids. */
  predicate IntendedCollides(ids: seq<string>, candidate: string) {
    candidate in ids
  }

  /** As written, the collision test never holds, whatever the table holds. */
  lemma AsWrittenNeverCollides(ids: seq<string>, candidate: string)
    ensures !AsWrittenCollides(ids, candidate)
  {
  }

  /** A random stream that always yields 0. */
  function Zeros(n: nat): nat {
    0
  }

  /** With a stream of zeros the first candidate is 24 'a's. */
  lemma ZerosCandidate()
    ensures Candidate(Zeros, 0) == "aaaaaaaaaaaaaaaaaaaaaaaa"
  {
    var c := RandomChoices(Alphabet, FidLength, Zeros, 0);
    assert Candidate(Zeros, 0) == c;
    assert |Alphabet| == 62 && Alphabet[0] == 'a';
    forall i | 0 <= i < FidLength ensures c[i] == 'a' {
      assert Zeros(0 + i) == 0;
      assert c[i] == Alphabet[Zeros(0 + i) % |Alphabet|];
    }
    AllAs(c);
  }

  /** A 24-character string of 'a's, spelled out. */
  lemma AllAs(c: string)
    requires |c| == FidLength && forall i :: 0 <= i < |c| ==> c[i] == 'a'
    ensures c == "aaaaaaaaaaaaaaaaaaaaaaaa"
  {
  }

  /**
   * A duplicate goes undetected: a table that already holds the first
   * candidate does not make the as-written test fire.
   */
  lemma AsWrittenMissesDuplicate(rng: nat -> nat, ids: seq<string>)
    requires Candidate(rng, 0) in ids
    ensures IntendedCollides(ids, Candidate(rng, 0))
    ensures !AsWrittenCollides(ids, Candidate(rng, 0))
  {
  }

  /**
   * The `while True` loop of generate_fid over a given collision test: redraw
   * while the current candidate collides. It returns the first draw that does
   * not collide, and `attempts` is its number. The loop ends only if some draw
   * of the stream does not collide; that is what the precondition says.
   */
  method RetryDraw(collides: string -> bool, rng: nat -> nat) returns (fid: string, attempts: nat)
    requires exists k: nat :: !collides(Candidate(rng, k))
    ensures fid == Candidate(rng, attempts) && IsFid(fid)
    ensures !collides(fid)
    ensures forall j :: 0 <= j < attempts ==> collides(Candidate(rng, j))
  {
    ghost var free: nat :| !collides(Candidate(rng, free));
    attempts := 0;
    fid := Candidate(rng, 0);
    while true
      invariant attempts <= free
      invariant fid == Candidate(rng, attempts)
      invariant forall j :: 0 <= j < attempts ==> collides(Candidate(rng, j))
      decreases free - attempts
    {
      if collides(fid) {
        attempts := attempts + 1;
        fid := Candidate(rng, attempts);
      } else {
        break;
      }
    }
  }

  /**
   * `generate_fid(check_existing)` as written, over a table holding `ids`:
   * since the collision test never holds, the first draw is returned,
   * whether or not that id is already stored.
   */
  method GenerateFid(checkExisting: bool, ids: seq<string>, rng: nat -> nat) returns (fid: string)
    ensures IsFid(fid)
    ensures fid == Candidate(rng, 0)
  {
    fid := Candidate(rng, 0);
    if checkExisting {
      var collides := c => AsWrittenCollides(ids, c);
      AsWrittenNeverCollides(ids, fid);
      assert !collides(Candidate(rng, 0));
      var attempts;
      fid, attempts := RetryDraw(collides, rng);
      assert attempts == 0;
    }
  }

  /**
   * generate_fid with the intended collision test against the stored ids: the
   * result is the first draw that is not a stored id.
   */
  method GenerateFreshFid(ids: seq<string>, rng: nat -> nat) returns (fid: string)
    requires exists k: nat :: Candidate(rng, k) !in ids
    ensures IsFid(fid)
    ensures fid !in ids
    ensures exists k: nat :: fid == Candidate(rng, k) && forall j :: 0 <= j < k ==> Candidate(rng, j) in ids
  {
    var attempts;
    fid, attempts := RetryDraw(c => IntendedCollides(ids, c), rng);
  }
}
