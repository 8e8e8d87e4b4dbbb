/**
 * Identifiers of stored documents and the shape check every route applies to
 * an id supplied by a caller (mongoose.Types.ObjectId.isValid on a string).
 */
module ObjectIds {

  /** An id as it travels in a route parameter, a body field or a stored reference. */
  type Id = string

  predicate IsHexDigit(c: char) {
    ('0' <= c <= '9') || ('a' <= c <= 'f') || ('A' <= c <= 'F')
  }

  /** A string is a well-formed ObjectId when it has 12 characters (read as 12 raw
      bytes) or 24 hexadecimal digits. */
  predicate IsValidObjectId(s: string) {
    |s| == 12 || (|s| == 24 && forall i :: 0 <= i < |s| ==> IsHexDigit(s[i]))
  }

  /** The test suite relies on these: a 12-character word is well formed although no
      document has it, a hyphenated phrase is not, and neither is the empty string. */
  lemma ValidityExamples()
    ensures IsValidObjectId("DOESNOTEXIST")
    ensures !IsValidObjectId("NOT-A-VALID-ID")
    ensures !IsValidObjectId("")
    ensures IsValidObjectId("5c077dab85723a2f5a17b8a1")
    ensures !IsValidObjectId("5c077dab85723a2f5a17b8az")
  {
    assert !IsHexDigit("5c077dab85723a2f5a17b8az"[23]);
  }
}
