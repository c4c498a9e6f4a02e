/**
 * The file-based credential validator (package pbkdf2auth): a token store is
 * read line by line, and the first record decides whether a secret is
 * accepted, by deriving a key from the secret and the record's salt and
 * comparing it with the record's hash field.
 */
module Pbkdf2Auth {
  import opened GoTypes
  import opened GoStrings
  import opened GoBytes
  import opened Base64

  /** The PBKDF2 parameters fixed by the store format. */
  const ITERATIONS: nat := 10000
  const KEY_LENGTH: nat := 20

  /** The field delimiter of a record, ':'. */
  const COLON: byte := 58

  /**
   * `pbkdf2.Key(password, salt, iter, keyLen, sha3.New512)`: PBKDF2 with
   * HMAC-SHA3-512. Its internals are not modelled; all the model relies on is
   * that it returns exactly `keyLen` bytes.
   */
  type Pbkdf2 = f: (seq<byte>, seq<byte>, nat, nat) -> seq<byte>
    | forall password, salt, iter, keyLen :: |f(password, salt, iter, keyLen)| == keyLen
    witness (password: seq<byte>, salt: seq<byte>, iter: nat, keyLen: nat) => seq(keyLen, _ => 0 as byte)

  /**
   * A token store as the line scanner sees it: the lines it delivered, and
   * whether it stopped on a read error rather than at the end of the file.
   */
  datatype TokenFile = TokenFile(lines: seq<GoString>, scanFailed: bool)

  /** The files that can be opened for reading, by path. */
  type FileSystem = map<GoString, TokenFile>

  /** `bufio.MaxScanTokenSize`, the buffer limit of a default `bufio.Scanner`. */
  const MAX_SCAN_TOKEN_SIZE: nat := 65536

  /**
   * A line as `bufio.Scanner` can deliver it: it holds no line feed, and it
   * fits the scanner's buffer together with a CR LF ending. A longer line ends
   * the scan with `ErrTooLong`, which makes the store unreadable. Only one
   * carriage return before the line feed is dropped, so a line may still end
   * in one when the file uses CR LF endings.
   */
  predicate ScannedLine(line: GoString) {
    LF !in line && |line| + 2 <= MAX_SCAN_TOKEN_SIZE
  }

  /**
   * The verdict of one record: an out-of-range panic when it has fewer than
   * four fields, so always for a record without ':'. The derived key is 20
   * bytes long, so only a 20-byte hash field can match.
   */
  function RecordVerdict(record: GoString, secret: seq<byte>, key: Pbkdf2): (r: Exec<bool>)
    ensures COLON !in record ==> r == IndexOutOfRange
    ensures r == Done(true) ==> |Split(record, [COLON])| >= 4 && |Split(record, [COLON])[3]| == KEY_LENGTH
  {
    var s := Split(record, [COLON]);
    SplitSingle(record, COLON);
    if |s| < 4 then IndexOutOfRange
    else Done(key(secret, DecodeString(s[2]).bytes, ITERATIONS, KEY_LENGTH) == s[3])
  }

  /**
   * What `ValidateViaFile(path, secret)` yields: false for a store that cannot
   * be read, true for an empty one, and otherwise the verdict of the first
   * record alone.
   */
  function Verdict(fs: FileSystem, path: GoString, secret: seq<byte>, key: Pbkdf2): (r: Exec<bool>)
    ensures r == Done(true) ==> path in fs && !fs[path].scanFailed
  {
    if path !in fs || fs[path].scanFailed then Done(false)
    else if fs[path].lines == [] then Done(true)
    else RecordVerdict(fs[path].lines[0], secret, key)
  }

  /**
   * `readTokensFile(path)`: the lines of the store in file order, and whether
   * opening or scanning it failed. A file that cannot be opened gives no lines.
   */
  method ReadTokensFile(fs: FileSystem, path: GoString) returns (records: seq<GoString>, failed: bool)
    ensures path !in fs ==> records == [] && failed
    ensures path in fs ==> records == fs[path].lines && failed == fs[path].scanFailed
  {
    if path !in fs {
      return [], true;
    }
    var file := fs[path];
    records := [];
    var i := 0;
    while i < |file.lines|
      invariant i <= |file.lines|
      invariant records == file.lines[..i]
    {
      records := records + [file.lines[i]];
      i := i + 1;
    }
    failed := file.scanFailed;
  }

  /**
   * `ValidateViaFile(path, secret)`. The loop body either returns false or
   * breaks, so at most the first record is ever examined.
   */
  method ValidateViaFile(fs: FileSystem, path: GoString, secret: seq<byte>, key: Pbkdf2)
    returns (authorized: Exec<bool>)
    ensures authorized == Verdict(fs, path, secret, key)
  {
    var records, failed := ReadTokensFile(fs, path);
    if failed {
      return Done(false);
    }
    for i := 0 to |records|
      invariant i == 0
    {
      var s := Split(records[i], [COLON]);
      if |s| <= 2 {
        return IndexOutOfRange;
      }
      var salt := DecodeString(s[2]).bytes;
      if |s| <= 3 {
        return IndexOutOfRange;
      }
      var hash := s[3];
      var k := key(secret, salt, ITERATIONS, KEY_LENGTH);
      var ret := Compare(k, hash);
      CompareZeroIffEqual(k, hash);
      if ret != 0 {
        return Done(false);
      }
      break;
    }
    return Done(true);
  }

  /** A store that cannot be opened, or whose scan fails, denies, whatever lines were read. */
  lemma UnreadableStoreDenies(fs: FileSystem, path: GoString, secret: seq<byte>, key: Pbkdf2)
    requires path !in fs || fs[path].scanFailed
    ensures Verdict(fs, path, secret, key) == Done(false)
  {
  }

  /** A readable store with no records authorises any secret. */
  lemma EmptyStoreAuthorises(fs: FileSystem, path: GoString, secret: seq<byte>, key: Pbkdf2)
    requires path in fs && !fs[path].scanFailed && fs[path].lines == []
    ensures Verdict(fs, path, secret, key) == Done(true)
  {
  }

  /** Records after the first never change the verdict. */
  lemma OnlyFirstRecordCounts(first: GoString, later: seq<GoString>, path: GoString, fs: FileSystem,
                              secret: seq<byte>, key: Pbkdf2)
    ensures Verdict(fs[path := TokenFile([first] + later, false)], path, secret, key)
         == Verdict(fs[path := TokenFile([first], false)], path, secret, key)
         == RecordVerdict(first, secret, key)
  {
  }

  /**
   * For a readable non-empty store the secret is accepted exactly when the
   * first record has at least four fields and the key derived from the secret
   * and the decoded third field equals the bytes of the fourth.
   */
  lemma FirstRecordDecides(fs: FileSystem, path: GoString, secret: seq<byte>, key: Pbkdf2)
    requires path in fs && !fs[path].scanFailed && fs[path].lines != []
    ensures var s := Split(fs[path].lines[0], [COLON]);
      && (Verdict(fs, path, secret, key) == IndexOutOfRange <==> |s| < 4)
      && (Verdict(fs, path, secret, key) == Done(true) <==>
            |s| >= 4 && key(secret, DecodeString(s[2]).bytes, ITERATIONS, KEY_LENGTH) == s[3])
  {
  }

  /**
   * Only the salt and hash fields matter: the first two fields and any after
   * the fourth are ignored, and a salt that fails to decode is not rejected;
   * the key is derived from whatever bytes the decoder returned.
   */
  lemma {:induction false} OnlySaltAndHashCount(name: GoString, second: GoString, salt: GoString, hash: GoString,
                              more: seq<GoString>, secret: seq<byte>, key: Pbkdf2)
    requires COLON !in name && COLON !in second && COLON !in salt && COLON !in hash
    requires forall k :: 0 <= k < |more| ==> COLON !in more[k]
    ensures RecordVerdict(Join([name, second, salt, hash] + more, [COLON]), secret, key)
         == Done(key(secret, DecodeString(salt).bytes, ITERATIONS, KEY_LENGTH) == hash)
  {
    var fields := [name, second, salt, hash] + more;
    forall k | 0 <= k < |fields| ensures COLON !in fields[k] {
      if k >= 4 {
        assert fields[k] == more[k - 4];
      }
    }
    SplitJoin(fields, COLON);
  }

  /**
   * A key that contains ':' can never be matched, since no field of a record
   * contains one.
   */
  lemma {:induction false} KeyWithColonNeverMatches(record: GoString, secret: seq<byte>, key: Pbkdf2)
    requires var s := Split(record, [COLON]);
      |s| >= 4 && COLON in key(secret, DecodeString(s[2]).bytes, ITERATIONS, KEY_LENGTH)
    ensures RecordVerdict(record, secret, key) == Done(false)
  {
    SplitSingle(record, COLON);
  }

  /**
   * A record issued for a secret (salt written with `RawStdEncoding`, hash the
   * derived key) makes a store that starts with it accept that secret, when
   * the record can be stored as one line...
   */
  lemma {:induction false} IssuedRecordAccepts(name: GoString, second: GoString, salt: seq<byte>,
                             fs: FileSystem, path: GoString, later: seq<GoString>,
                             secret: seq<byte>, key: Pbkdf2)
    requires COLON !in name && COLON !in second
    requires COLON !in key(secret, salt, ITERATIONS, KEY_LENGTH)
    requires ScannedLine(Join([name, second, EncodeToString(salt), key(secret, salt, ITERATIONS, KEY_LENGTH)], [COLON]))
    ensures var record := Join([name, second, EncodeToString(salt), key(secret, salt, ITERATIONS, KEY_LENGTH)], [COLON]);
      Verdict(fs[path := TokenFile([record] + later, false)], path, secret, key) == Done(true)
  {
    var hash := key(secret, salt, ITERATIONS, KEY_LENGTH);
    EncodedSaltHasNoColon(salt);
    OnlySaltAndHashCount(name, second, EncodeToString(salt), hash, [], secret, key);
    assert [name, second, EncodeToString(salt), hash] + [] == [name, second, EncodeToString(salt), hash];
    DecodeEncode(salt);
  }

  /** ...and rejects any secret whose derived key differs. */
  lemma {:induction false} IssuedRecordRejects(name: GoString, second: GoString, salt: seq<byte>,
                             fs: FileSystem, path: GoString, later: seq<GoString>,
                             issued: seq<byte>, secret: seq<byte>, key: Pbkdf2)
    requires COLON !in name && COLON !in second
    requires COLON !in key(issued, salt, ITERATIONS, KEY_LENGTH)
    requires ScannedLine(Join([name, second, EncodeToString(salt), key(issued, salt, ITERATIONS, KEY_LENGTH)], [COLON]))
    requires key(secret, salt, ITERATIONS, KEY_LENGTH) != key(issued, salt, ITERATIONS, KEY_LENGTH)
    ensures var record := Join([name, second, EncodeToString(salt), key(issued, salt, ITERATIONS, KEY_LENGTH)], [COLON]);
      Verdict(fs[path := TokenFile([record] + later, false)], path, secret, key) == Done(false)
  {
    var hash := key(issued, salt, ITERATIONS, KEY_LENGTH);
    EncodedSaltHasNoColon(salt);
    OnlySaltAndHashCount(name, second, EncodeToString(salt), hash, [], secret, key);
    assert [name, second, EncodeToString(salt), hash] + [] == [name, second, EncodeToString(salt), hash];
    DecodeEncode(salt);
  }

  /**
   * A salt written with padding is decoded with an error that is ignored: the
   * key is derived from the salt without its last one or two bytes.
   */
  lemma PaddedSaltIsTruncated(name: GoString, second: GoString, salt: seq<byte>, hash: GoString,
                              secret: seq<byte>, key: Pbkdf2)
    requires COLON !in name && COLON !in second && COLON !in hash && |salt| % 3 != 0
    ensures RecordVerdict(Join([name, second, EncodeToString(salt) + Padding(|salt|), hash], [COLON]), secret, key)
         == Done(key(secret, salt[..|salt| - |salt| % 3], ITERATIONS, KEY_LENGTH) == hash)
  {
    var field := EncodeToString(salt) + Padding(|salt|);
    EncodedSaltHasNoColon(salt);
    assert COLON !in field;
    OnlySaltAndHashCount(name, second, field, hash, [], secret, key);
    assert [name, second, field, hash] + [] == [name, second, field, hash];
    DecodePadded(salt);
  }

  lemma EncodedSaltHasNoColon(salt: seq<byte>)
    ensures COLON !in EncodeToString(salt)
  {
    var e := EncodeToString(salt);
    forall i | 0 <= i < |e| ensures e[i] != COLON {
      assert IsSymbol(e[i]);
    }
  }
}
