/**
 The character sets of src/character_classes.rs.
 */
module CharacterClasses {

  const ALPHA: set<char> := set c: char | 'a' <= c <= 'z' || 'A' <= c <= 'Z'

  const DIGIT: set<char> := set c: char | '0' <= c <= '9'

  const HEXDIG: set<char> := set c: char | c in DIGIT || 'A' <= c <= 'F' || 'a' <= c <= 'f'

  const UNRESERVED: set<char> :=
    set c: char | c in ALPHA || c in DIGIT || c == '-' || c == '.' || c == '_' || c == '~'

  const SUB_DELIMS: set<char> :=
    set c: char | c == '!' || c == '$' || c == '&' || c == '\'' || c == '(' || c == ')' || c == '*' || c == '+' ||
                  c == ',' || c == ';' || c == '='

  const SCHEME_NOT_FIRST: set<char> := set c: char | c in ALPHA || c in DIGIT || c == '+' || c == '-' || c == '.'

  const REG_NAME: set<char> := set c: char | c in UNRESERVED || c in SUB_DELIMS

  const PCHAR: set<char> := set c: char | c in REG_NAME || c == ':' || c == '@'

  const QUERY_OR_FRAGMENT: set<char> := set c: char | c in PCHAR || c == '/' || c == '?'

  /** As above without `+`, which some services read as a space. */
  const QUERY_WITHOUT_PLUS: set<char> := set c: char | c in QUERY_OR_FRAGMENT && c != '+'

  const USER_INFO: set<char> := set c: char | c in REG_NAME || c == ':'

  const IPV_FUTURE_LAST_PART: set<char> := set c: char | c in REG_NAME || c == ':'
}
