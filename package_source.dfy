/** Where the package list comes from: the registry file's content names the repository,
    and the package-list URL is derived from it. Reading the file and fetching the URL are
    I/O and stay outside the model; the file content is a parameter. */
module PackageSource {
  import opened Text

  /** What is appended to the registry content to name the package list. */
  const PackageListSuffix: string := "/packagelist"

  /** The URL the package list is fetched from. The suffix is appended to the raw file
      content first and only then is the whole string trimmed, so whitespace at the end of
      the content (a trailing newline, say) ends up inside the URL, just before the suffix. */
  function PackageListUrl(content: string): (url: string)
    ensures url == TrimStart(content) + PackageListSuffix
  {
    TrimStartAppend(content, PackageListSuffix);
    TrimEndKeepsNonWhitespaceEnd(content + PackageListSuffix);
    Trim(content + PackageListSuffix)
  }

  /** Whatever the registry file holds, the URL ends with the suffix and has no whitespace
      at either end. */
  lemma UrlShape(content: string)
    ensures |PackageListUrl(content)| >= |PackageListSuffix|
    ensures PackageListUrl(content)[|PackageListUrl(content)| - |PackageListSuffix|..] == PackageListSuffix
    ensures !IsWhitespace(PackageListUrl(content)[0])
    ensures !IsWhitespace(PackageListUrl(content)[|PackageListUrl(content)| - 1])
  {
    var t := TrimStart(content);
    var url := PackageListUrl(content);
    assert url == t + PackageListSuffix;
    assert url[|t|..] == PackageListSuffix;
  }

  /** The derived URL agrees with "trim the content, then append the suffix" exactly when
      the content does not end in whitespace (or is whitespace only). */
  lemma UrlIsTrimThenAppendIff(content: string)
    ensures TrimStart(content) == [] || !IsWhitespace(content[|content| - 1])
            ==> PackageListUrl(content) == Trim(content) + PackageListSuffix
    ensures PackageListUrl(content) == Trim(content) + PackageListSuffix
            ==> TrimStart(content) == [] || !IsWhitespace(content[|content| - 1])
  {
    TrimStartThenAppendIff(content, PackageListSuffix);
  }

  /** A registry file that ends in a newline, as text files usually do, leaves that newline
      in the middle of the URL. */
  lemma TrailingNewlineStaysInUrl()
    ensures PackageListUrl("https://example.com/repo\n") == "https://example.com/repo\n/packagelist"
  {
    var content := "https://example.com/repo\n";
    assert !IsWhitespace(content[0]);
    assert TrimStart(content) == content;
    assert content + PackageListSuffix == "https://example.com/repo\n/packagelist";
  }
}
