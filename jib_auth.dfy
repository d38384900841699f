/**
  The registry credentials jib builds with (pkg/jib/build.go), and how they are found in the
  project's Jenkinsfile: the word after `-Djib.to.auth.username=` and the word after
  `-Djib.to.auth.password=`. The file read becomes an `Option<string>` argument, None when the
  file cannot be read.
 */
module JibAuth {
  import opened Wrappers
  import opened Strings
  import opened Regex

  /** `Auth`: the registry user name and password. */
  datatype Auth = Auth(username: string, password: string) {

    /** `IsValid`: neither field is blank, that is, each has a character that is not white space. */
    function IsValid(): (b: bool)
      ensures b <==> !IsBlank(username) && !IsBlank(password)
    {
      TrimSpace(username) != "" && TrimSpace(password) != ""
    }
  }

  /** The literal parts of the patterns `-Djib.to.auth.username=(\w+)` and
      `-Djib.to.auth.password=(\w+)`; each unescaped `.` matches any character but a newline. */
  const UsernameFlag: string := "-Djib.to.auth.username="
  const PasswordFlag: string := "-Djib.to.auth.password="

  /** A non-empty word is never blank. */
  lemma WordNotBlank(w: string)
    requires |w| >= 1 && forall j :: 0 <= j < |w| ==> InClass(Word, w[j])
    ensures !IsBlank(w)
  {
    assert !IsSpace(w[0]);
  }

  /** `GetAuth`: starts from the empty `Auth`; stops when the Jenkinsfile cannot be read or has no
      user name; sets the user name; stops when it has no password; sets the password. */
  method GetAuth(jenkinsfile: Option<string>) returns (auth: Auth)
    ensures jenkinsfile.None? ==> auth == Auth("", "")
    ensures jenkinsfile.Some? ==> match FindLiteralThenRun(jenkinsfile.value, UsernameFlag, Word)
      case None => auth == Auth("", "")
      case Some(user) =>
        && auth.username == user
        && auth.password == match FindLiteralThenRun(jenkinsfile.value, PasswordFlag, Word)
                            case None => ""
                            case Some(password) => password
    ensures forall j :: 0 <= j < |auth.username| ==> InClass(Word, auth.username[j])
    ensures forall j :: 0 <= j < |auth.password| ==> InClass(Word, auth.password[j])
    ensures auth.IsValid() <==>
      && jenkinsfile.Some?
      && FindLiteralThenRun(jenkinsfile.value, UsernameFlag, Word).Some?
      && FindLiteralThenRun(jenkinsfile.value, PasswordFlag, Word).Some?
  {
    auth := Auth("", "");
    if jenkinsfile.None? {
      return;
    }
    var text := jenkinsfile.value;
    var groups := FindLiteralThenRun(text, UsernameFlag, Word);
    if groups.None? {
      return;
    }
    auth := auth.(username := groups.value);
    WordNotBlank(auth.username);
    groups := FindLiteralThenRun(text, PasswordFlag, Word);
    if groups.None? {
      return;
    }
    auth := auth.(password := groups.value);
    WordNotBlank(auth.password);
  }
}
