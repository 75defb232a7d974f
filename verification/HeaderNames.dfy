/** Names of HTTP headers, in lower case except for the ETag as a cache key. */
module HeaderNames {
  import opened Bytes

  const HOST: Text := [0x68, 0x6F, 0x73, 0x74]
  const RANGE: Text := [0x72, 0x61, 0x6E, 0x67, 0x65]
  const CONTENT: Text := [0x63, 0x6F, 0x6E, 0x74, 0x65, 0x6E, 0x74, 0x2D]
  const CONTENT_TYPE: Text := CONTENT + [0x74, 0x79, 0x70, 0x65]
  const CONTENT_LENGTH: Text := CONTENT + [0x6C, 0x65, 0x6E, 0x67, 0x74, 0x68]
  const CONTENT_MD5: Text := CONTENT + [0x6D, 0x64, 0x35]
  const LAST_MODIFIED: Text :=
    [0x6C, 0x61, 0x73, 0x74, 0x2D, 0x6D, 0x6F, 0x64, 0x69, 0x66, 0x69, 0x65, 0x64]
  const ETAG_LOWER: Text := [0x65, 0x74, 0x61, 0x67]
  const ETAG: Text := [0x45, 0x54, 0x61, 0x67]

  /** What the service's own headers begin with. */
  const X_COS: Text := [0x78, 0x2D, 0x63, 0x6F, 0x73]

  lemma ShortNames()
    ensures HOST == Ascii("host") && RANGE == Ascii("range") && X_COS == Ascii("x-cos")
  {
  }

  lemma EtagNames()
    ensures ETAG_LOWER == Ascii("etag") && ETAG == Ascii("ETag")
  {
  }

  lemma ContentNames()
    ensures CONTENT_TYPE == Ascii("content-type") && CONTENT_MD5 == Ascii("content-md5")
  {
  }

  lemma LengthName()
    ensures CONTENT_LENGTH == Ascii("content-length")
  {
  }

  lemma ModifiedName()
    ensures LAST_MODIFIED == Ascii("last-modified")
  {
  }
}
