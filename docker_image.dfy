/**
  Images pushed to the Softleader registry (pkg/docker/image.go): the image reference, its
  validity check, and setting the pre-release part of its tag. Tags are Semantic Versioning 2.0.0
  versions read by blang/semver, optionally with a leading `v`.
 */
module DockerImage {
  import opened Wrappers
  import opened Strings
  import opened SemVer

  /** The registry every image goes to. */
  const SoftleaderHub: string := "hub.softleader.com.tw"

  /** The full reference of an image: `<registry>/<name>:<tag>`. */
  function Reference(name: string, tag: string): (ref: string)
    ensures HasPrefix(ref, SoftleaderHub + "/")
  {
    SoftleaderHub + "/" + name + ":" + tag
  }

  /** A name and a tag without `:` can be read back from the reference. */
  lemma ReferenceReadsBack(name: string, tag: string)
    requires ':' !in name && ':' !in tag
    ensures Split(TrimPrefix(Reference(name, tag), SoftleaderHub + "/"), ":") == [name, tag]
  {
    var ref := Reference(name, tag);
    assert ref == (SoftleaderHub + "/") + (name + ":" + tag);
    assert TrimPrefix(ref, SoftleaderHub + "/") == name + ":" + tag;
    JoinCons(name, [tag], ":");
    SplitJoin([name, tag], ':');
  }

  /** Why an image is not valid. */
  datatype ImageError = NameRequired | TagRequired | InvalidTag(version: string)

  /** The error text; `detail` is the library's own message, which the model does not know. */
  function Message(err: ImageError, detail: string): string {
    match err
    case NameRequired => "image name is required"
    case TagRequired => "tag is required"
    case InvalidTag(_) => "requires valid semver2 tag: " + detail
  }

  /** `CheckValid`: the name must not be blank, then the tag must not be blank, then the tag with
      one leading `v` stripped must be a version. */
  function Check(lib: Library, name: string, tag: string): (r: Option<ImageError>)
    ensures r == None <==> !IsBlank(name) && !IsBlank(tag) && lib.parse(TrimPrefix(tag, "v")).Some?
    ensures IsBlank(name) ==> r == Some(NameRequired)
    ensures !IsBlank(name) && IsBlank(tag) ==> r == Some(TagRequired)
  {
    if TrimSpace(name) == "" then Some(NameRequired)
    else if TrimSpace(tag) == "" then Some(TagRequired)
    else
      var v := TrimPrefix(tag, "v");
      if lib.parse(v).None? then Some(InvalidTag(v)) else None
  }

  /** The tag `SetPreRelease` makes of `tag`: the version with its pre-release replaced by the
      single identifier `preRelease`, with the tag's leading `v` kept; the tag itself when it is
      not a version or `preRelease` is not a pre-release identifier. */
  function PreReleaseTag(lib: Library, tag: string, preRelease: string): (r: string)
    ensures lib.parse(TrimPrefix(tag, "v")).None? || lib.parsePrerelease(preRelease).None? ==> r == tag
  {
    match lib.parse(TrimPrefix(tag, "v"))
    case None => tag
    case Some(sv) =>
      match lib.parsePrerelease(preRelease)
      case None => tag
      case Some(prv) =>
        var pr := ToString(sv.(pre := [prv]));
        if HasPrefix(tag, "v") then "v" + pr else pr
  }

  /** With a well-behaved library, a tag given a pre-release keeps its leading `v` (or its lack of
      one), and reads back as the same version whose pre-release is exactly the one identifier:
      major, minor, patch and build metadata are unchanged. */
  lemma PreReleaseTagVersion(lib: Library, tag: string, preRelease: string)
    requires Lawful(lib, Blang)
    requires lib.parse(TrimPrefix(tag, "v")).Some? && lib.parsePrerelease(preRelease).Some?
    ensures var r := PreReleaseTag(lib, tag, preRelease);
      var v := lib.parse(TrimPrefix(tag, "v")).value;
      && (HasPrefix(r, "v") <==> HasPrefix(tag, "v"))
      && lib.parse(TrimPrefix(r, "v")) == Some(v.(pre := [lib.parsePrerelease(preRelease).value]))
  {
    var v := lib.parse(TrimPrefix(tag, "v")).value;
    var id := lib.parsePrerelease(preRelease).value;
    var w := v.(pre := [id]);
    assert Valid(v, Blang) && ValidIdentifier(id, Blang);
    assert Valid(w, Blang);
    ToStringStartsWithDigit(w);
    KeepsLeadingV(tag, ToString(w));
    ParsesPrinted(lib, Blang, w);
  }

  /** Setting the same pre-release twice is the same as setting it once. */
  lemma PreReleaseTagIdempotent(lib: Library, tag: string, preRelease: string)
    requires Lawful(lib, Blang)
    ensures PreReleaseTag(lib, PreReleaseTag(lib, tag, preRelease), preRelease) == PreReleaseTag(lib, tag, preRelease)
  {
    if lib.parse(TrimPrefix(tag, "v")).Some? && lib.parsePrerelease(preRelease).Some? {
      PreReleaseTagVersion(lib, tag, preRelease);
    }
  }

  /** A tag that starts with `v` or a digit is not blank. */
  lemma NotBlank(s: string)
    requires |s| >= 1 && (s[0] == 'v' || IsDigit(s[0]))
    ensures !IsBlank(s)
  {
  }

  /** With a well-behaved library, a valid image stays valid when it is given a pre-release. */
  lemma PreReleaseKeepsValid(lib: Library, name: string, tag: string, preRelease: string)
    requires Lawful(lib, Blang) && Check(lib, name, tag) == None
    ensures Check(lib, name, PreReleaseTag(lib, tag, preRelease)) == None
  {
    if lib.parsePrerelease(preRelease).Some? {
      PreReleaseTagVersion(lib, tag, preRelease);
      var v := lib.parse(TrimPrefix(tag, "v")).value;
      var w := v.(pre := [lib.parsePrerelease(preRelease).value]);
      assert Valid(v, Blang);
      ToStringStartsWithDigit(w);
      NotBlank(PreReleaseTag(lib, tag, preRelease));
    }
  }

  /** `SoftleaderHubImage`: an image name and tag. */
  class SoftleaderHubImage {
    var Name: string
    var Tag: string

    constructor(name: string, tag: string)
      ensures Name == name && Tag == tag
    {
      Name := name;
      Tag := tag;
    }

    /** `String`: the full reference of the image. */
    function String(): (ref: string)
      reads this
      ensures HasPrefix(ref, SoftleaderHub + "/")
      ensures ':' !in Name && ':' !in Tag ==>
        Split(TrimPrefix(ref, SoftleaderHub + "/"), ":") == [Name, Tag]
    {
      if ':' !in Name && ':' !in Tag then
        ReferenceReadsBack(Name, Tag);
        Reference(Name, Tag)
      else Reference(Name, Tag)
    }

    /** `CheckValid`. */
    function CheckValid(lib: Library): (r: Option<ImageError>)
      reads this
      ensures r == None <==> !IsBlank(Name) && !IsBlank(Tag) && lib.parse(TrimPrefix(Tag, "v")).Some?
      ensures IsBlank(Name) ==> r == Some(NameRequired)
      ensures !IsBlank(Name) && IsBlank(Tag) ==> r == Some(TagRequired)
    {
      Check(lib, Name, Tag)
    }

    /** `SetPreRelease`: replaces the pre-release of the tag, in place; the name never changes. */
    method SetPreRelease(lib: Library, preRelease: string)
      modifies this
      ensures Name == old(Name)
      ensures Tag == PreReleaseTag(lib, old(Tag), preRelease)
    {
      var version := TrimPrefix(Tag, "v");
      var parsed := lib.parse(version);
      if parsed.None? {
        return;
      }
      var sv := parsed.value.(pre := []);
      var prv := lib.parsePrerelease(preRelease);
      if prv.None? {
        return;
      }
      sv := sv.(pre := sv.pre + [prv.value]);
      var pr := ToString(sv);
      if HasPrefix(Tag, "v") {
        pr := "v" + pr;
      }
      Tag := pr;
    }
  }
}
