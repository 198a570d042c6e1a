/**
 The project-root safety check of `main`: a root path holding a shell
 metacharacter is refused.
 */
module RootPath {

  /** The characters `main` refuses in a project root. */
  const SuspiciousChars: seq<char> := ['|', ';', '&', '`', '$', '(', ')', '<', '>']

  /** `any(char in root for char in chars)`: some listed character occurs in `root`. */
  function AnyIn(chars: seq<char>, root: string): (r: bool)
    ensures r <==> exists i :: 0 <= i < |root| && root[i] in chars
  {
    if chars == [] then false
    else
      assert forall c :: c in chars <==> c == chars[0] || c in chars[1..] by {
        assert chars == [chars[0]] + chars[1..];
      }
      chars[0] in root || AnyIn(chars[1..], root)
  }

  /** The root is refused with exit code 1 exactly when this holds. */
  function HasSuspiciousChar(root: string): (r: bool)
    ensures r <==> exists i :: 0 <= i < |root| && root[i] in SuspiciousChars
  {
    AnyIn(SuspiciousChars, root)
  }

  /** A path made only of letters, digits, separators and dots is accepted. */
  lemma PlainPathAccepted(root: string)
    requires forall i :: 0 <= i < |root| ==>
      'a' <= root[i] <= 'z' || 'A' <= root[i] <= 'Z' || '0' <= root[i] <= '9'
      || root[i] == '/' || root[i] == '\\' || root[i] == ':' || root[i] == '.' || root[i] == '_' || root[i] == '-' || root[i] == ' '
    ensures !HasSuspiciousChar(root)
  {
  }
}
