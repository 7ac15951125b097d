/** animated_letter.py: an animated object for one character, named by its percent-encoding. */
module Letters {
  import opened Wrappers
  import opened Pixels
  import opened Geometry
  import opened UrlCodec
  import opened CaseMapping
  import opened Constants
  import opened AnimatedObjects

  /** `AnimatedLetter.url_encode`: "/" is forced to "%2F", everything else goes through `quote`. */
  function UrlEncode(character: string): string {
    if character == "/" then "%2F" else Quote(character)
  }

  /** The sprite name a letter is looked up by: its upper case, url-encoded. */
  function SpriteName(letter: char): string {
    UrlEncode(Upper([letter]))
  }

  lemma UrlEncodeSlash()
    ensures UrlEncode("/") == "%2F"
  {
  }

  /** Letters, digits and "_.-~" encode to themselves (the unreserved set of RFC 3986, section 2.3). */
  lemma UrlEncodeUnreserved(c: char)
    requires IsUnreserved(c)
    ensures UrlEncode([c]) == [c]
  {
    assert [c] != "/";
    assert [c][1..] == [];
    assert Quote([c]) == QuoteBytes(Utf8Encode(c)) + Quote([]);
    var b: byte := c as int;
    assert Utf8Encode(c) == [b];
    assert QuoteBytes([b]) == QuoteByte(b) + QuoteBytes([]);
    assert QuoteByte(b) == [b as char];
  }

  /** Any other ASCII character becomes "%" and two upper-case hex digits of its code
      (RFC 3986, section 2.1). */
  lemma UrlEncodeOtherAscii(c: char)
    requires IsAscii(c) && !IsUnreserved(c)
    ensures UrlEncode([c]) == ['%', HexDigit(c as int / 16), HexDigit(c as int % 16)]
  {
    if c == '/' {
      return;
    }
    assert [c] != "/";
    assert [c][1..] == [];
    assert Quote([c]) == QuoteBytes(Utf8Encode(c)) + Quote([]);
    var b: byte := c as int;
    assert Utf8Encode(c) == [b];
    assert QuoteBytes([b]) == QuoteByte(b) + QuoteBytes([]);
    assert b as char == c;
    assert QuoteByte(b) == PercentEncoded(b);
  }

  lemma QuoteBytesNoSlash(bs: seq<byte>)
    requires |bs| > 1 ==> forall k :: 0 <= k < |bs| ==> bs[k] >= 0x80
    requires |bs| == 1 ==> bs[0] != '/' as int
    ensures '/' !in QuoteBytes(bs)
    ensures '_' in QuoteBytes(bs) ==> bs == ['_' as int]
  {
    if |bs| > 0 {
      QuoteBytesNoSlash(bs[1..]);
      assert QuoteBytes(bs) == QuoteByte(bs[0]) + QuoteBytes(bs[1..]);
      if |bs| > 1 {
        assert bs[1] >= 0x80;
      }
    }
  }

  /** The encoding of one character never holds "/", and holds "_" only for "_" itself. */
  lemma UrlEncodeNoSlash(c: char)
    ensures '/' !in UrlEncode([c])
    ensures '_' in UrlEncode([c]) ==> c == '_'
  {
    if c != '/' {
      assert [c][1..] == [];
      QuoteBytesNoSlash(Utf8Encode(c));
      assert Quote([c]) == QuoteBytes(Utf8Encode(c));
    }
  }

  /** Round trip: `unquote(url_encode(c)) == c` for every character. */
  lemma UnquoteUrlEncode(c: char)
    ensures Unquote(UrlEncode([c])) == [c]
  {
    if c == '/' {
      assert IsHexDigit('2') && IsHexDigit('F');
      assert PercentDecode("%2F") == [0x2F];
      assert SequenceLength(0x2F) == 1;
    } else {
      UnquoteQuote([c]);
    }
  }

  /** 'a' and 'A' select the same sprites. */
  lemma SpriteNameIgnoresCase(c: char)
    requires IsLowerLetter(c)
    ensures SpriteName(c) == SpriteName(UpperChar(c))
  {
    assert Upper([c]) == [UpperChar(c)] == Upper([UpperChar(c)]);
  }

  /**
   * The `AnimatedLetter` constructor: the object is loaded under `SpriteName(letter)`, and a
   * missing sprite set is reported with the letter as the caller wrote it. `decoded` holds the
   * pictures of `SpriteFiles(SpriteName(letter), …)`, resized to the box.
   */
  method NewLetter(letter: char, box: Rect, textColor: Color, backgroundColor: Color, decoded: seq<Raster>)
    returns (r: Result<AnimatedObject>)
    requires box.width >= 0 && box.height >= 0
    requires forall k :: 0 <= k < |decoded| ==> IsRaster(decoded[k], box.height, box.width)
    ensures r.Err? <==> |decoded| == 0
    ensures r.Err? ==> r.error == FileNotFoundError("Got illegal character: " + [letter])
    ensures r.Ok? ==> fresh(r.value) && r.value.Valid() && r.value.cursor == 0
    ensures r.Ok? ==> r.value.name == SpriteName(letter) && r.value.box == box
    ensures r.Ok? ==> r.value.foregroundColor == textColor && r.value.backgroundColor == backgroundColor
    ensures r.Ok? ==> |r.value.sprites| == |decoded|
    ensures r.Ok? ==> forall k :: 0 <= k < |decoded| ==> LoadedFrom(r.value.sprites[k], decoded[k], textColor, backgroundColor)
  {
    r := AnimatedObject.Load(SpriteName(letter), box, textColor, backgroundColor, decoded);
    if r.Err? {
      r := Err(FileNotFoundError("Got illegal character: " + [letter]));
    }
  }

  /** The encoding of one character is that character alone or starts with "%". */
  lemma UrlEncodeShape(u: char)
    ensures |UrlEncode([u])| == 1 || (|UrlEncode([u])| > 0 && UrlEncode([u])[0] == '%')
  {
    if u == '/' {
    } else if IsUnreserved(u) {
      UrlEncodeUnreserved(u);
    } else {
      assert [u][1..] == [];
      var bs := Utf8Encode(u);
      assert Quote([u]) == QuoteBytes(bs) + Quote([]);
      assert QuoteBytes(bs) == QuoteByte(bs[0]) + QuoteBytes(bs[1..]);
      if |bs| == 1 {
        assert bs[0] as char == u;
      }
    }
  }

  lemma PrefixBeforeUnderscore(file: string, name: string)
    requires '_' !in name && StartsWith(file, name + "_")
    ensures GlyphPrefix(file) == name
  {
    assert file[..|name| + 1] == name + "_";
    forall k | 0 <= k < |name| ensures file[k] != '_' {
      assert file[k] == (name + "_")[k];
    }
    assert file[|name|] == (name + "_")[|name|];
    FirstUnderscoreAt(file, |name|);
    assert file[..|name|] == (name + "_")[..|name|];
  }

  lemma NotSkipped(file: string, name: string)
    requires StartsWith(file, name + "_") && |name| > 0 && name[0] != '_'
    requires |name| == 1 || name[0] == '%'
    ensures !Skipped(file)
  {
    assert file[..|name| + 1] == name + "_";
    assert file[0] == (name + "_")[0];
    if |name| == 1 {
      assert file[1] == (name + "_")[1];
    }
  }

  /** A file `<SpriteName(c)>_<rest>` is not skipped, and its glyph prefix is the sprite name. */
  lemma SpriteFilePrefix(c: char, file: string)
    requires c != '_' && StartsWith(file, SpriteName(c) + "_")
    ensures GlyphPrefix(file) == SpriteName(c)
    ensures !Skipped(file)
  {
    var u := UpperChar(c);
    var name := SpriteName(c);
    assert Upper([c]) == [u];
    assert name == UrlEncode([u]);
    UrlEncodeNoSlash(u);
    PrefixBeforeUnderscore(file, name);
    UrlEncodeShape(u);
    assert name[0] != '_';
    NotSkipped(file, name);
  }

  /**
   * A character whose sprite file exists is allowed: the file `<SpriteName(c)>_<variant>`
   * contributes the upper case of `c`, and for a letter its lower case too. ("_" is always
   * allowed by itself.)
   */
  lemma SpriteFileMakesLetterAllowed(c: char, basenames: seq<string>, file: string)
    requires c != '_' && file in basenames && StartsWith(file, SpriteName(c) + "_")
    ensures [UpperChar(c)] in AllowedFrom(basenames)
    ensures IsLowerLetter(c) || IsUpperLetter(c) ==> [c] in AllowedFrom(basenames)
  {
    var u := UpperChar(c);
    assert Upper([c]) == [u];
    SpriteFilePrefix(c, file);
    UnquoteUrlEncode(u);
    ContributionAllowed(basenames, file);
    if IsLowerLetter(c) || IsUpperLetter(c) {
      LetterCases(c, [u]);
    }
  }

  /** A letter is the upper case of its upper case, or the lower case of it. */
  lemma LetterCases(c: char, d: string)
    requires d == [UpperChar(c)] && (IsLowerLetter(c) || IsUpperLetter(c))
    ensures Lower(d) != Upper(d)
    ensures [c] == Upper(d) || [c] == Lower(d)
  {
    var u := UpperChar(c);
    assert Upper(d) == [u];
    assert Lower(d) == [LowerChar(u)];
    assert IsLowerLetter(c) ==> LowerChar(u) == c;
  }

  lemma FirstUnderscoreAt(s: string, n: nat)
    requires n < |s| && s[n] == '_' && forall k :: 0 <= k < n ==> s[k] != '_'
    ensures FirstUnderscore(s) == n
  {
  }
}
