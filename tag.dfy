/** Image tags of the form `domain/name:version` (`make_tag` and `tag_components`). */
module TagCodec {
  import opened Wrappers
  import opened Strings

  datatype Tag = Tag(domain: string, repository: string, version: string)

  /** Which separator `tag_components` could not find; Python raises a ValueError for both. */
  datatype TagError = NoDomainSeparator | NoVersionSeparator

  /** Parts that `tag_components` gives back unchanged: no `/` in the domain, no `:` in the name. */
  predicate ValidParts(domain: string, repository: string) {
    '/' !in domain && ':' !in repository
  }

  /** `make_tag`: plain formatting, without any validation of its arguments. */
  function MakeTag(registry: string, name: string, version: string): (r: string)
    ensures |r| == |registry| + |name| + |version| + 2
    ensures r[|registry|] == '/' && r[|r| - |version| - 1] == ':'
  {
    registry + "/" + name + ":" + version
  }

  /** `tag_components`: split at the first `/`, then split the rest at its first `:`. */
  function TagComponents(tag: string): (r: Result<Tag, TagError>)
    ensures r.Success? ==> ValidParts(r.value.domain, r.value.repository)
    ensures r.Success? ==> MakeTag(r.value.domain, r.value.repository, r.value.version) == tag
    ensures r == Failure(NoDomainSeparator) <==> '/' !in tag
  {
    match SplitOnce(tag, '/')
    case None => Failure(NoDomainSeparator)
    case Some((domain, rest)) =>
      match SplitOnce(rest, ':')
      case None => Failure(NoVersionSeparator)
      case Some((repository, version)) =>
        assert MakeTag(domain, repository, version) == domain + ['/'] + (repository + [':'] + version);
        Success(Tag(domain, repository, version))
  }

  /** Parsing a built tag gives back its parts whenever the parts are valid. */
  lemma TagRoundTrip(domain: string, repository: string, version: string)
    requires ValidParts(domain, repository)
    ensures TagComponents(MakeTag(domain, repository, version)) == Success(Tag(domain, repository, version))
  {
    var rest := repository + [':'] + version;
    assert MakeTag(domain, repository, version) == domain + ['/'] + rest;
    SplitOnceUnique(domain, '/', rest);
    SplitOnceUnique(repository, ':', version);
  }

  /** A tag parses exactly when it is the tag of some valid parts. */
  lemma TagComponentsSucceedsIffBuilt(tag: string)
    ensures TagComponents(tag).Success? <==>
            exists d, n, v :: ValidParts(d, n) && MakeTag(d, n, v) == tag
  {
    if exists d, n, v :: ValidParts(d, n) && MakeTag(d, n, v) == tag {
      var d, n, v :| ValidParts(d, n) && MakeTag(d, n, v) == tag;
      TagRoundTrip(d, n, v);
    }
    if TagComponents(tag).Success? {
      var t := TagComponents(tag).value;
      assert ValidParts(t.domain, t.repository) && MakeTag(t.domain, t.repository, t.version) == tag;
    }
  }

  /** With a domain before the first `/`, parsing fails on the version exactly when the rest has no `:`. */
  lemma NoVersionSeparatorIff(domain: string, rest: string)
    requires '/' !in domain
    ensures TagComponents(domain + "/" + rest) == Failure(NoVersionSeparator) <==> ':' !in rest
  {
    SplitOnceUnique(domain, '/', rest);
  }
}
