/**
 * `docker_image_exists`: find the registry login stored for the tag's domain in the local
 * docker credential file, then ask the registry whether the tag's version is listed.
 * The parsed credential file, the base64/UTF-8 decoder and the registry's tag listing
 * are inputs of the model.
 */
module Registry {
  import opened Wrappers
  import opened Strings
  import opened TagCodec

  /** The parsed credential file as the code indexes it: `data['auths'][domain]['auth']`. */
  type AuthFile = map<string, map<string, map<string, string>>>

  datatype Credentials = Credentials(username: string, password: string)

  /** What the registry client is opened with. */
  datatype Login = Login(url: string, username: string, password: string)

  datatype ProbeError =
    | BadTag(reason: TagError)
    | NoAuthsSection
    | NoCredentialsForDomain(domain: string)
    | NoAuthField(domain: string)
    | Undecodable
    | NoCredentialSeparator

  /** The base64 blob stored for `domain`; each missing key is a KeyError in the source. */
  function EncodedCredentials(file: AuthFile, domain: string): (r: Result<string, ProbeError>)
    ensures r.Success? <==> "auths" in file && domain in file["auths"] && "auth" in file["auths"][domain]
    ensures r == Failure(NoCredentialsForDomain(domain)) <==> "auths" in file && domain !in file["auths"]
  {
    if "auths" !in file then Failure(NoAuthsSection)
    else if domain !in file["auths"] then Failure(NoCredentialsForDomain(domain))
    else if "auth" !in file["auths"][domain] then Failure(NoAuthField(domain))
    else Success(file["auths"][domain]["auth"])
  }

  /** `username, password = credentials.split(':', 1)`. */
  function ParseCredentials(text: string): (r: Result<Credentials, ProbeError>)
    ensures r.Success? <==> ':' in text
    ensures r.Success? ==> ':' !in r.value.username
    ensures r.Success? ==> r.value.username + ":" + r.value.password == text
  {
    match SplitOnce(text, ':')
    case None => Failure(NoCredentialSeparator)
    case Some((username, password)) => Success(Credentials(username, password))
  }

  /** The registry client is opened on `https://{domain}`. */
  function LoginFor(domain: string, c: Credentials): (r: Login)
    ensures |r.url| == 8 + |domain| && r.url[..8] == "https://" && r.url[8..] == domain
    ensures r.username == c.username && r.password == c.password
  {
    Login("https://" + domain, c.username, c.password)
  }

  /**
   * `docker_image_exists(tag)`, given the parsed credential file, the decoder of the stored
   * blob (`None` where base64 or UTF-8 decoding raises) and the registry's tags per login
   * and repository.
   */
  function ImageExists(tag: string, file: AuthFile, decode: string -> Option<string>,
                       tagsOf: (Login, string) -> seq<string>): (r: Result<bool, ProbeError>)
    ensures TagComponents(tag).Failure? ==> r == Failure(BadTag(TagComponents(tag).error))
    ensures r.Success? ==> TagComponents(tag).Success? &&
                           EncodedCredentials(file, TagComponents(tag).value.domain).Success?
    ensures r.Success? ==>
              var blob := EncodedCredentials(file, TagComponents(tag).value.domain).value;
              decode(blob).Some? && ':' in decode(blob).value
  {
    match TagComponents(tag)
    case Failure(e) => Failure(BadTag(e))
    case Success(t) =>
      match EncodedCredentials(file, t.domain)
      case Failure(e) => Failure(e)
      case Success(blob) =>
        match decode(blob)
        case None => Failure(Undecodable)
        case Some(text) =>
          match ParseCredentials(text)
          case Failure(e) => Failure(e)
          case Success(c) => Success(t.version in tagsOf(LoginFor(t.domain, c), t.repository))
  }

  /** The stored `user:password` splits at its first colon, so a password may itself hold colons. */
  lemma ParseCredentialsInverse(username: string, password: string)
    requires ':' !in username
    ensures ParseCredentials(username + ":" + password) == Success(Credentials(username, password))
  {
    SplitOnceUnique(username, ':', password);
  }

  /** The stored text `alice:secret` yields user `alice` and password `secret`. */
  lemma ParseCredentialsExample()
    ensures ParseCredentials("alice:secret") == Success(Credentials("alice", "secret"))
  {
    assert "alice" + ":" + "secret" == "alice:secret";
    assert forall k :: 0 <= k < 5 ==> "alice"[k] != ':';
    ParseCredentialsInverse("alice", "secret");
  }

  /**
   * For a well-formed tag whose domain has a decodable `user:password` entry, the answer is
   * exactly whether the version is among the repository's tags under that login.
   */
  lemma ImageExistsIffListed(domain: string, repository: string, version: string,
                             file: AuthFile, decode: string -> Option<string>,
                             tagsOf: (Login, string) -> seq<string>,
                             username: string, password: string)
    requires ValidParts(domain, repository) && ':' !in username
    requires "auths" in file && domain in file["auths"] && "auth" in file["auths"][domain]
    requires decode(file["auths"][domain]["auth"]) == Some(username + ":" + password)
    ensures ImageExists(MakeTag(domain, repository, version), file, decode, tagsOf) ==
            Success(version in tagsOf(Login("https://" + domain, username, password), repository))
  {
    TagRoundTrip(domain, repository, version);
    ParseCredentialsInverse(username, password);
  }

  /** A tag whose domain has no entry under `auths` fails on that domain, whatever the registry holds. */
  lemma ImageExistsNeedsDomainEntry(domain: string, repository: string, version: string,
                                    file: AuthFile, decode: string -> Option<string>,
                                    tagsOf: (Login, string) -> seq<string>)
    requires ValidParts(domain, repository)
    requires "auths" in file && domain !in file["auths"]
    ensures ImageExists(MakeTag(domain, repository, version), file, decode, tagsOf) ==
            Failure(NoCredentialsForDomain(domain))
  {
    TagRoundTrip(domain, repository, version);
  }

  /** Decoded credentials without a colon are refused before the registry is asked. */
  lemma ImageExistsNeedsSeparator(domain: string, repository: string, version: string,
                                  file: AuthFile, decode: string -> Option<string>,
                                  tagsOf: (Login, string) -> seq<string>, text: string)
    requires ValidParts(domain, repository)
    requires "auths" in file && domain in file["auths"] && "auth" in file["auths"][domain]
    requires decode(file["auths"][domain]["auth"]) == Some(text) && ':' !in text
    ensures ImageExists(MakeTag(domain, repository, version), file, decode, tagsOf) ==
            Failure(NoCredentialSeparator)
  {
    TagRoundTrip(domain, repository, version);
  }

  /** Only the entry of the tag's own domain is read: files that agree on it give the same answer. */
  lemma ImageExistsReadsOnlyItsDomain(domain: string, repository: string, version: string,
                                      file1: AuthFile, file2: AuthFile,
                                      decode: string -> Option<string>,
                                      tagsOf: (Login, string) -> seq<string>)
    requires ValidParts(domain, repository)
    requires "auths" in file1 && "auths" in file2
    requires domain in file1["auths"] <==> domain in file2["auths"]
    requires domain in file1["auths"] ==> file1["auths"][domain] == file2["auths"][domain]
    ensures ImageExists(MakeTag(domain, repository, version), file1, decode, tagsOf) ==
            ImageExists(MakeTag(domain, repository, version), file2, decode, tagsOf)
  {
    TagRoundTrip(domain, repository, version);
  }
}
