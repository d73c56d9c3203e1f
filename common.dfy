/**
 * Shared vocabulary of the mutation engine: bytes, the two kinds of value a
 * field can hold (bytes or text), the errors the engine raises, and the
 * name pattern `^[A-Za-z0-9_]+$` used for element and path names.
 */
module Common {

  newtype byte = b: int | 0 <= b < 256
  type bytes = seq<byte>

  datatype Option<T> = None | Some(value: T)

  /** The exceptions the engine raises: its own runtime errors and the Python
      errors that its code paths run into. */
  datatype Error =
    | InvalidName                  // name setter: the name does not follow the pattern
    | DuplicateName(name: string)  // Request.push: name already registered
    | BlockStackOutOfSync          // Request.pop on an empty open-block stack
    | OutOfRange(index: nat, limit: nat)  // goto beyond num_mutations
    | InvalidPath(path: string)    // path does not follow `req` or `req.mutant`
    | RequestNotFound(request: string)
    | MutantNotFound(mutant: string)
    | NoMatchingResponse           // every response parser rejected the data
    | TypeError                    // bytes concatenated with text or None, ordering across types
    | KeyError(key: string)        // dependency field missing from the name registry
    | AttributeError               // dependency field is a block, which has no current value
    | ValueError                   // random.randint on an empty range
    | StructError                  // struct.pack('>L', n) with n outside 32 bits

  datatype Result<T> = Ok(value: T) | Err(error: Error)

  /** A field value: Python `bytes` or `str`. */
  datatype Value = Bytes(b: bytes) | Text(s: string)

  /** UTF-8 encoding of one Unicode scalar value. */
  function Utf8Char(c: char): (r: bytes)
    ensures 1 <= |r| <= 4
    ensures (c as int < 0x80) <==> |r| == 1
  {
    var n := c as int;
    if n < 0x80 then [n as byte]
    else if n < 0x800 then [(0xC0 + n / 0x40) as byte, (0x80 + n % 0x40) as byte]
    else if n < 0x10000 then
      [(0xE0 + n / 0x1000) as byte, (0x80 + n / 0x40 % 0x40) as byte, (0x80 + n % 0x40) as byte]
    else
      [(0xF0 + n / 0x40000) as byte, (0x80 + n / 0x1000 % 0x40) as byte,
       (0x80 + n / 0x40 % 0x40) as byte, (0x80 + n % 0x40) as byte]
  }

  /** Python `str.encode()` (UTF-8). */
  function Utf8(s: string): bytes
  {
    if s == [] then [] else Utf8(s[..|s| - 1]) + Utf8Char(s[|s| - 1])
  }

  /** Encoding distributes over concatenation, so a text field encodes
      character by character. */
  lemma {:induction false} Utf8Append(a: string, b: string)
    ensures Utf8(a + b) == Utf8(a) + Utf8(b)
  {
    if b != [] {
      assert (a + b)[..|a + b| - 1] == a + b[..|b| - 1];
      assert (a + b)[|a + b| - 1] == b[|b| - 1];
      Utf8Append(a, b[..|b| - 1]);
    } else {
      assert a + b == a;
    }
  }

  /** A string encodes to between one and four bytes per character, and to
      exactly one per character iff every character is ASCII. */
  lemma {:induction false} Utf8Size(s: string)
    ensures |s| <= |Utf8(s)| <= 4 * |s|
    ensures |Utf8(s)| == |s| <==> forall i :: 0 <= i < |s| ==> s[i] as int < 0x80
  {
    if s != [] {
      var p := s[..|s| - 1];
      Utf8Size(p);
      if |Utf8(s)| == |s| {
        assert |Utf8Char(s[|s| - 1])| == 1;
        forall i | 0 <= i < |s|
          ensures s[i] as int < 0x80
        {
          if i < |s| - 1 {
            assert s[i] == p[i];
          }
        }
      }
    }
  }

  /** An ASCII string encodes to one byte per character, holding its code. */
  lemma {:induction false} Utf8Ascii(s: string)
    requires forall i :: 0 <= i < |s| ==> s[i] as int < 0x80
    ensures |Utf8(s)| == |s|
    ensures forall i :: 0 <= i < |s| ==> Utf8(s)[i] as int == s[i] as int
  {
    if s != [] {
      Utf8Ascii(s[..|s| - 1]);
    }
  }

  /** Mutant._render: bytes are kept, text is UTF-8 encoded. */
  function Encode(v: Value): (r: bytes)
    ensures v.Bytes? ==> r == v.b
  {
    match v
    case Bytes(b) => b
    case Text(s) => Utf8(s)
  }

  predicate IsWordChar(c: char)
  {
    ('A' <= c <= 'Z') || ('a' <= c <= 'z') || ('0' <= c <= '9') || c == '_'
  }

  /** A non-empty run of `[A-Za-z0-9_]`. */
  predicate IsWord(s: string)
  {
    |s| > 0 && forall i :: 0 <= i < |s| ==> IsWordChar(s[i])
  }

  /** Python `re.match('^[A-Za-z0-9_]+$', s)`: `$` also matches just before
      one final newline, so a word followed by "\n" matches too. */
  predicate MatchesName(s: string)
  {
    IsWord(s) || (|s| >= 2 && s[|s| - 1] == '\n' && IsWord(s[..|s| - 1]))
  }

  /** Length of the longest prefix of `s` made of word characters. */
  function WordPrefix(s: string): (n: nat)
    ensures n <= |s|
    ensures forall i :: 0 <= i < n ==> IsWordChar(s[i])
    ensures n < |s| ==> !IsWordChar(s[n])
  {
    if s == [] || !IsWordChar(s[0]) then 0
    else 1 + WordPrefix(s[1..])
  }

  /** The name pattern, decided by scanning: the greedy `+` takes the longest
      word prefix, then `$` needs the end of the string or a final newline.
      Both directions: the scan accepts exactly the names the pattern does. */
  lemma NameScan(s: string)
    ensures MatchesName(s) <==>
      (var n := WordPrefix(s); n > 0 && (n == |s| || (n == |s| - 1 && s[n] == '\n')))
  {
    var n := WordPrefix(s);
    if |s| >= 2 && s[|s| - 1] == '\n' && IsWord(s[..|s| - 1]) {
      assert forall i :: 0 <= i < |s| - 1 ==> s[..|s| - 1][i] == s[i];
    }
  }
}
