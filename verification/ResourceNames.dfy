/** Resource names: splitting on a separator, the short and long forms of a name, its protobuf form
    and its printed form. */
module ResourceNames {
  import opened Wrappers

  // ----- splitting and joining

  /** `boost::split` on one separator, adjacent separators giving empty parts. */
  function Split(s: string, sep: char): (parts: seq<string>)
    ensures |parts| >= 1
  {
    if s == "" then [""]
    else
      var rest := Split(s[1..], sep);
      if s[0] == sep then [""] + rest else [[s[0]] + rest[0]] + rest[1..]
  }

  /** `std::accumulate` with `a + ":" + b`. */
  function Accumulate(acc: string, parts: seq<string>): string
    decreases parts
  {
    if parts == [] then acc else Accumulate(acc + ":" + parts[0], parts[1..])
  }

  function Last(parts: seq<string>): string
    requires parts != []
  {
    parts[|parts| - 1]
  }

  lemma {:induction false} SplitConcat(s: string, t: string, sep: char)
    ensures Split(s + [sep] + t, sep) == Split(s, sep) + Split(t, sep)
  {
    var whole := s + [sep] + t;
    if s == "" {
      assert whole[1..] == t;
    } else {
      assert whole[1..] == s[1..] + [sep] + t;
      SplitConcat(s[1..], t, sep);
    }
  }

  lemma {:induction false} SplitWithoutSeparator(s: string, sep: char)
    ensures sep !in s <==> |Split(s, sep)| == 1
    ensures sep !in s ==> Split(s, sep) == [s]
  {
    if s != "" {
      SplitWithoutSeparator(s[1..], sep);
      assert s == [s[0]] + s[1..];
    }
  }

  /** Parts hold the characters of the string other than the separator. */
  lemma {:induction false} PartCharacters(s: string, sep: char, part: string, c: char)
    requires part in Split(s, sep) && c in part
    ensures c in s && c != sep
  {
    var rest := Split(s[1..], sep);
    if part in rest {
      PartCharacters(s[1..], sep, part, c);
    } else if c != s[0] {
      assert part == [s[0]] + rest[0];
      PartCharacters(s[1..], sep, rest[0], c);
    }
  }

  lemma {:induction false} CharacterParts(s: string, sep: char, c: char)
    requires c in s && c != sep
    ensures exists part :: part in Split(s, sep) && c in part
  {
    var rest := Split(s[1..], sep);
    var parts := Split(s, sep);
    if s[0] == c {
      assert parts[0] in parts && c in parts[0];
    } else {
      CharacterParts(s[1..], sep, c);
      var part :| part in rest && c in part;
      if s[0] == sep {
        assert part in parts;
      } else if part == rest[0] {
        assert parts[0] in parts && c in parts[0];
      } else {
        assert part in rest[1..];
        assert part in parts;
      }
    }
  }

  lemma {:induction false} AccumulateFrom(prefix: string, acc: string, parts: seq<string>)
    ensures Accumulate(prefix + acc, parts) == prefix + Accumulate(acc, parts)
    decreases parts
  {
    if parts != [] {
      assert prefix + acc + ":" + parts[0] == prefix + (acc + ":" + parts[0]);
      AccumulateFrom(prefix, acc + ":" + parts[0], parts[1..]);
    }
  }

  /** Joining the parts of a string gives the string back. */
  lemma {:induction false} JoinOfSplit(s: string)
    ensures Accumulate(Split(s, ':')[0], Split(s, ':')[1..]) == s
  {
    if s != "" {
      var rest := Split(s[1..], ':');
      JoinOfSplit(s[1..]);
      if s[0] == ':' {
        assert Split(s, ':')[1..] == rest;
        AccumulateFrom(":", rest[0], rest[1..]);
        assert "" + ":" + rest[0] == ":" + rest[0];
      } else {
        assert Split(s, ':')[1..] == rest[1..];
        AccumulateFrom([s[0]], rest[0], rest[1..]);
      }
      assert s == [s[0]] + s[1..];
    }
  }

  /** The string before the last separator and the string after it. */
  lemma {:induction false} SplitAtLast(s: string) returns (front: string, last: string)
    requires ':' in s
    ensures s == front + ":" + last && ':' !in last
  {
    var n := |s| - 1;
    if s[n] == ':' {
      front, last := s[..n], "";
    } else {
      assert s == s[..n] + [s[n]];
      var before;
      front, before := SplitAtLast(s[..n]);
      last := before + [s[n]];
    }
  }

  // ----- short and long names

  /** The part of a name after its last colon. */
  function ShortcutName(name: string): string {
    Last(Split(name, ':'))
  }

  function LongNameToRemoteAndShort(longName: string): (string, string) {
    var parts := Split(longName, ':');
    var front := parts[..|parts| - 1];
    (if front == [] then "" else Accumulate(front[0], front[1..]), Last(parts))
  }

  /** A name without a colon stands for itself. */
  lemma PlainName(name: string)
    requires ':' !in name
    ensures ShortcutName(name) == name
    ensures LongNameToRemoteAndShort(name) == ("", name)
  {
    SplitWithoutSeparator(name, ':');
  }

  /** Splitting undoes joining with a colon, whatever colons the remote holds. */
  lemma QualifiedName(remote: string, name: string)
    requires ':' !in name
    ensures ShortcutName(remote + ":" + name) == name
    ensures LongNameToRemoteAndShort(remote + ":" + name) == (remote, name)
  {
    SplitConcat(remote, name, ':');
    SplitWithoutSeparator(name, ':');
    JoinOfSplit(remote);
    var parts := Split(remote + ":" + name, ':');
    assert parts == Split(remote, ':') + [name];
    assert parts[..|parts| - 1] == Split(remote, ':');
  }

  /** A segment never has a colon, and a name is its own segment exactly when it has none. */
  lemma ShortcutIsPlain(name: string)
    ensures ':' !in ShortcutName(name)
    ensures ShortcutName(name) == name <==> ':' !in name
    ensures ':' in name ==> exists remote :: name == remote + ":" + ShortcutName(name)
  {
    if ':' in name {
      var remote, last := SplitAtLast(name);
      QualifiedName(remote, last);
    } else {
      PlainName(name);
    }
  }

  /** Splitting a long name divides it at its last colon. */
  lemma SplitLongName(longName: string)
    ensures var (remote, name) := LongNameToRemoteAndShort(longName);
      && ':' !in name
      && (if ':' in longName then longName == remote + ":" + name else remote == "" && name == longName)
  {
    if ':' in longName {
      var remote, last := SplitAtLast(longName);
      QualifiedName(remote, last);
    } else {
      PlainName(longName);
    }
  }

  // ----- APIs, names and models

  datatype API = API(namespace: string, resourceType: string, subtype: string)

  datatype Name = Name(api: API, remote: string, name: string)

  datatype Model = Model(namespace: string, family: string, name: string)

  /** The protobuf message `ResourceName`. */
  datatype ResourceName = ResourceName(namespace: string, resourceType: string, subtype: string, name: string)

  datatype NameError = InvalidName | InvalidApi | InvalidModel | OutOfRange

  function ApiToString(api: API): string {
    api.namespace + ":" + api.resourceType + ":" + api.subtype
  }

  /** What is printed of a name behind the slash. */
  function Tail(n: Name): string {
    if n.remote == "" || n.remote == ":" then n.name else n.remote + ":" + n.name
  }

  function NameToString(n: Name): string {
    ApiToString(n.api) + "/" + Tail(n)
  }

  function ShortName(n: Name): string {
    if n.remote != "" then n.remote + ":" + n.name else n.name
  }

  /** Equality of names is equality of their printed forms. */
  predicate SameName(a: Name, b: Name) {
    NameToString(a) == NameToString(b)
  }

  function NameToProto(n: Name): ResourceName {
    ResourceName(n.api.namespace, n.api.resourceType, n.api.subtype,
                 if n.remote == "" then n.name else n.remote + ":" + n.name)
  }

  function NameFromProto(p: ResourceName): Name {
    var (remote, name) := LongNameToRemoteAndShort(p.name);
    Name(API(p.namespace, p.resourceType, p.subtype), remote, name)
  }

  /** The API goes through protobuf field by field. */
  lemma ApiThroughProto(n: Name, p: ResourceName)
    ensures var q := NameToProto(n);
      q.namespace == n.api.namespace && q.resourceType == n.api.resourceType && q.subtype == n.api.subtype
    ensures var m := NameFromProto(p);
      m.api.namespace == p.namespace && m.api.resourceType == p.resourceType && m.api.subtype == p.subtype
  {
  }

  /** A name survives the trip through protobuf exactly when its last part has no colon; its remote
      may have any number. */
  lemma NameProtoRoundTrip(n: Name)
    ensures NameFromProto(NameToProto(n)) == n <==> ':' !in n.name
  {
    SplitLongName(NameToProto(n).name);
    if ':' !in n.name {
      if n.remote == "" {
        PlainName(n.name);
      } else {
        QualifiedName(n.remote, n.name);
      }
    }
  }

  /** The short name is what protobuf carries; splitting it gives remote and name back exactly when
      the name has no colon, and then the name is its shortcut. */
  lemma ShortNameRoundTrip(n: Name)
    ensures ShortName(n) == NameToProto(n).name
    ensures LongNameToRemoteAndShort(ShortName(n)) == (n.remote, n.name) <==> ':' !in n.name
    ensures ':' !in n.name ==> ShortcutName(ShortName(n)) == n.name
  {
    NameProtoRoundTrip(n);
  }

  /** A name that is only a plain name with a colon in front. */
  predicate HasEmptyRemote(longName: string) {
    longName != "" && longName[0] == ':' && ':' !in longName[1..]
  }

  lemma EmptyRemote(longName: string)
    ensures HasEmptyRemote(longName) <==>
      ':' in longName && LongNameToRemoteAndShort(longName).0 == ""
  {
    SplitLongName(longName);
    var (remote, name) := LongNameToRemoteAndShort(longName);
    if HasEmptyRemote(longName) {
      assert longName == "" + ":" + longName[1..];
      QualifiedName("", longName[1..]);
    }
    if ':' in longName && remote == "" {
      assert longName == ":" + name;
      assert longName[1..] == name;
    }
  }

  /** A message survives the trip exactly when its name is not a plain name with a colon in front. */
  lemma ProtoNameRoundTrip(p: ResourceName)
    ensures NameToProto(NameFromProto(p)) == p <==> !HasEmptyRemote(p.name)
  {
    SplitLongName(p.name);
    EmptyRemote(p.name);
    var (remote, name) := LongNameToRemoteAndShort(p.name);
    var sent := NameToProto(NameFromProto(p)).name;
    if ':' in p.name {
      assert |p.name| == |remote| + 1 + |name|;
      assert remote == "" ==> |sent| == |name|;
    }
  }

  // ----- what is printed of a name from a message

  /** A name that is only a plain name with two colons in front. */
  predicate HasColonRemote(longName: string) {
    |longName| >= 2 && longName[..2] == "::" && ':' !in longName[2..]
  }

  /** The long name without one colon, or two, in front of an otherwise colon-free name. */
  function Printed(longName: string): string {
    if HasEmptyRemote(longName) then longName[1..]
    else if HasColonRemote(longName) then longName[2..]
    else longName
  }

  /** The printed form of a name from a message shows its long name, but not one colon or two in
      front of a plain name. */
  lemma TailOfMessage(p: ResourceName)
    ensures Tail(NameFromProto(p)) == Printed(p.name)
  {
    SplitLongName(p.name);
    var (remote, name) := LongNameToRemoteAndShort(p.name);
    if HasEmptyRemote(p.name) {
      EmptyRemote(p.name);
    } else if HasColonRemote(p.name) {
      assert p.name == ":" + ":" + p.name[2..];
      QualifiedName(":", p.name[2..]);
    } else if ':' in p.name && remote == "" {
      EmptyRemote(p.name);
    }
  }

  /** `s` is the plain name `base`, or that with one or two colons in front. */
  predicate FormOf(s: string, base: string) {
    ':' !in base && s in {base, ":" + base, "::" + base}
  }

  lemma FormIsPrinted(s: string, base: string)
    requires FormOf(s, base)
    ensures Printed(s) == base
  {
    assert ("::" + base)[1..] == ":" + base;
    assert s == ":" + base ==> s[1..] == base;
    assert s == "::" + base ==> s[2..] == base;
  }

  lemma ShortenedIsForm(s: string)
    ensures Printed(s) == s || FormOf(s, Printed(s))
  {
    assert HasEmptyRemote(s) ==> s == ":" + s[1..];
    assert HasColonRemote(s) ==> s == "::" + s[2..];
  }

  /** Two long names print alike exactly when they are equal or two forms of one plain name. */
  lemma PrintedAlikeIff(s: string, t: string)
    ensures Printed(s) == Printed(t) <==> s == t || exists base :: FormOf(s, base) && FormOf(t, base)
  {
    ShortenedIsForm(s);
    ShortenedIsForm(t);
    if base :| FormOf(s, base) && FormOf(t, base) {
      FormIsPrinted(s, base);
      FormIsPrinted(t, base);
    }
    if Printed(s) == Printed(t) && s != t {
      assert FormOf(s, Printed(s)) && FormOf(t, Printed(s));
    }
  }

  // ----- the printed form and its regular expressions

  predicate WordCharacter(c: char) {
    'a' <= c <= 'z' || 'A' <= c <= 'Z' || '0' <= c <= '9' || c == '_' || c == '-'
  }

  /** `[\w-]+` */
  predicate IsField(s: string) {
    s != "" && forall c :: c in s ==> WordCharacter(c)
  }

  predicate LineBreak(c: char) {
    c == '\n' || c == '\r'
  }

  /** `.*` */
  predicate OneLine(s: string) {
    forall c :: c in s ==> !LineBreak(c)
  }

  /** The language of the model and API expression: three fields between colons. */
  predicate MatchesThreeFields(s: string) {
    var parts := Split(s, ':');
    |parts| == 3 && forall p :: p in parts ==> IsField(p)
  }

  /** `([\w-]+:(?:[\w-]+:)*)?` */
  predicate MatchesRemotes(s: string) {
    var parts := Split(s, ':');
    s == "" || (|parts| >= 2 && Last(parts) == "" && forall p :: p in parts[..|parts| - 1] ==> IsField(p))
  }

  ghost predicate NameParts(s: string, api: string, slash: string, remotes: string, rest: string) {
    && s == api + slash + remotes + rest
    && MatchesThreeFields(api) && slash in {"", "/"} && MatchesRemotes(remotes) && OneLine(rest)
  }

  /** The language of the name expression. */
  ghost predicate MatchesName(s: string) {
    exists api, slash, remotes, rest :: NameParts(s, api, slash, remotes, rest)
  }

  function ApiFromString(s: string): Result<API, NameError> {
    if MatchesThreeFields(s) then
      var parts := Split(s, ':');
      Success(API(parts[0], parts[1], parts[2]))
    else Failure(InvalidApi)
  }

  function ModelToString(m: Model): string {
    var family := if m.namespace == "" then m.family else m.namespace + ":" + m.family;
    if family == "" then m.name else family + ":" + m.name
  }

  function ModelFromString(s: string): Result<Model, NameError> {
    if MatchesThreeFields(s) then
      var parts := Split(s, ':');
      Success(Model(parts[0], parts[1], parts[2]))
    else if IsField(s) then Success(Model("rdk", "builtin", s))
    else Failure(InvalidModel)
  }

  ghost function NameFromString(s: string): Result<Name, NameError> {
    if !MatchesName(s) then Failure(InvalidName)
    else
      var parts := Split(s, '/');
      var api := ApiFromString(parts[0]);
      if api.Failure? then Failure(api.error)
      else if |parts| < 2 then Failure(OutOfRange)
      else
        var colons := Split(parts[1], ':');
        if |colons| > 1 then Success(Name(api.value, colons[0], colons[1]))
        else Success(Name(api.value, "", colons[0]))
  }

  predicate WellFormedApi(api: API) {
    IsField(api.namespace) && IsField(api.resourceType) && IsField(api.subtype)
  }

  lemma ThreeFields(a: string, b: string, c: string)
    requires ':' !in a && ':' !in b && ':' !in c
    ensures Split(a + ":" + b + ":" + c, ':') == [a, b, c]
  {
    SplitConcat(a + ":" + b, c, ':');
    SplitConcat(a, b, ':');
    SplitWithoutSeparator(a, ':');
    SplitWithoutSeparator(b, ':');
    SplitWithoutSeparator(c, ':');
  }

  lemma AccumulateTwo(a: string, b: string, c: string)
    ensures Accumulate(a, [b, c]) == a + ":" + b + ":" + c
  {
    assert [b, c][1..] == [c] && [c][1..] == [];
    assert Accumulate(a + ":" + b, [c]) == Accumulate(a + ":" + b + ":" + c, []);
  }

  /** The expression matches exactly the strings made of three fields. */
  lemma ThreeFieldLanguage(s: string)
    ensures MatchesThreeFields(s) <==>
      exists a, b, c :: IsField(a) && IsField(b) && IsField(c) && s == a + ":" + b + ":" + c
  {
    if MatchesThreeFields(s) {
      var parts := Split(s, ':');
      JoinOfSplit(s);
      assert parts[1..] == [parts[1], parts[2]];
      AccumulateTwo(parts[0], parts[1], parts[2]);
      assert IsField(parts[0]) && IsField(parts[1]) && IsField(parts[2]);
      assert s == parts[0] + ":" + parts[1] + ":" + parts[2];
    }
    if a, b, c :| IsField(a) && IsField(b) && IsField(c) && s == a + ":" + b + ":" + c {
      ThreeFields(a, b, c);
    }
  }

  /** An API is read back from its printed form exactly when its three parts are fields. */
  lemma ApiRoundTrip(api: API)
    ensures ApiFromString(ApiToString(api)) == Success(api) <==> WellFormedApi(api)
  {
    var parts := Split(ApiToString(api), ':');
    if WellFormedApi(api) {
      ThreeFields(api.namespace, api.resourceType, api.subtype);
    } else if MatchesThreeFields(ApiToString(api)) {
      assert IsField(parts[0]) && IsField(parts[1]) && IsField(parts[2]);
    }
  }

  /** The same for models; a printed form of one field is read as a built-in model instead. */
  lemma ModelRoundTrip(m: Model)
    ensures ModelFromString(ModelToString(m)) == Success(m) <==>
      IsField(m.namespace) && IsField(m.family) && IsField(m.name)
  {
    var s := ModelToString(m);
    var parts := Split(s, ':');
    if IsField(m.namespace) && IsField(m.family) && IsField(m.name) {
      ThreeFields(m.namespace, m.family, m.name);
    } else if MatchesThreeFields(s) {
      assert IsField(parts[0]) && IsField(parts[1]) && IsField(parts[2]);
    }
  }

  lemma ConsecutiveMembers(s: string, first: char, c: char)
    requires forall i :: 0 <= i < |s| ==> s[i] as int == first as int + i
    ensures c in s <==> first as int <= c as int < first as int + |s|
  {
    if first as int <= c as int < first as int + |s| {
      assert s[c as int - first as int] == c;
    }
  }

  /** The characters of a field, one by one. */
  lemma WordCharacters(c: char)
    ensures WordCharacter(c) <==>
      c in "abcdefghijklmnopqrstuvwxyz" || c in "ABCDEFGHIJKLMNOPQRSTUVWXYZ" || c in "0123456789" || c in "_-"
  {
    ConsecutiveMembers("abcdefghijklmnopqrstuvwxyz", 'a', c);
    ConsecutiveMembers("ABCDEFGHIJKLMNOPQRSTUVWXYZ", 'A', c);
    ConsecutiveMembers("0123456789", '0', c);
    assert "_-" == ['_', '-'];
  }

  /** Three fields are read in order, as an API and as a model. */
  lemma ThreeFieldsAreRead(a: string, b: string, c: string)
    requires IsField(a) && IsField(b) && IsField(c)
    ensures ApiFromString(a + ":" + b + ":" + c) == Success(API(a, b, c))
    ensures ModelFromString(a + ":" + b + ":" + c) == Success(Model(a, b, c))
  {
    ThreeFields(a, b, c);
  }

  /** A field alone is read as the built-in model of that name. */
  lemma ShortModel(s: string)
    requires IsField(s)
    ensures ModelFromString(s) == ModelFromString("rdk:builtin:" + s) == Success(Model("rdk", "builtin", s))
  {
    SplitWithoutSeparator(s, ':');
    ThreeFieldsAreRead("rdk", "builtin", s);
    assert "rdk" + ":" + "builtin" + ":" + s == "rdk:builtin:" + s;
  }

  /** What can be read as an API is three fields, and as a model three or one. */
  lemma ReadSucceedsIff(s: string)
    ensures ApiFromString(s).Success? <==>
      exists a, b, c :: IsField(a) && IsField(b) && IsField(c) && s == a + ":" + b + ":" + c
    ensures ModelFromString(s).Success? <==>
      IsField(s) || exists a, b, c :: IsField(a) && IsField(b) && IsField(c) && s == a + ":" + b + ":" + c
  {
    ThreeFieldLanguage(s);
  }

  /** A model is printed without the parts in front that are empty. */
  lemma PrintedModel(m: Model)
    requires ':' !in m.namespace && ':' !in m.family && ':' !in m.name
    ensures Split(ModelToString(m), ':') ==
      if m.namespace != "" then [m.namespace, m.family, m.name]
      else if m.family != "" then [m.family, m.name]
      else [m.name]
  {
    SplitWithoutSeparator(m.name, ':');
    SplitWithoutSeparator(m.family, ':');
    SplitConcat(m.family, m.name, ':');
    ThreeFields(m.namespace, m.family, m.name);
  }

  lemma FieldsAreOneLine(s: string, last: nat)
    requires last <= |Split(s, ':')|
    requires forall p :: p in Split(s, ':')[..last] ==> IsField(p)
    requires forall p :: p in Split(s, ':')[last..] ==> p == ""
    ensures forall c :: c in s ==> c == ':' || WordCharacter(c)
  {
    var parts := Split(s, ':');
    assert parts == parts[..last] + parts[last..];
    forall c | c in s && c != ':' ensures WordCharacter(c) {
      CharacterParts(s, ':', c);
      var p :| p in parts && c in p;
    }
  }

  lemma OneLineConcat(s: string, t: string)
    requires OneLine(s) && OneLine(t)
    ensures OneLine(s + t)
  {
  }

  lemma FieldsMatchIsOneLine(s: string)
    requires MatchesThreeFields(s) || MatchesRemotes(s)
    ensures OneLine(s)
  {
    if MatchesThreeFields(s) {
      FieldsAreOneLine(s, 3);
    } else if s != "" {
      FieldsAreOneLine(s, |Split(s, ':')| - 1);
    }
  }

  lemma MatchIsOneLine(s: string, api: string, slash: string, remotes: string, rest: string)
    requires NameParts(s, api, slash, remotes, rest)
    ensures OneLine(s)
  {
    FieldsMatchIsOneLine(api);
    FieldsMatchIsOneLine(remotes);
    OneLineConcat(api, slash);
    OneLineConcat(api + slash, remotes);
    OneLineConcat(api + slash + remotes, rest);
  }

  lemma {:induction false} SplitAtFirst(s: string, sep: char) returns (rest: string)
    requires sep in s
    ensures s == Split(s, sep)[0] + [sep] + rest
    ensures Split(s, sep) == [Split(s, sep)[0]] + Split(rest, sep)
  {
    if s[0] == sep {
      rest := s[1..];
      assert s == "" + [sep] + rest;
    } else {
      rest := SplitAtFirst(s[1..], sep);
      assert s[1..] == Split(s[1..], sep)[0] + [sep] + rest;
      assert s == [s[0]] + s[1..];
      assert s == [s[0]] + Split(s[1..], sep)[0] + [sep] + rest;
    }
  }

  /** Reading a name succeeds exactly for the one-line strings that have a slash and, before the
      first one, three fields. */
  lemma NameFromStringSucceedsIff(s: string)
    ensures NameFromString(s).Success? <==>
      OneLine(s) && '/' in s && MatchesThreeFields(Split(s, '/')[0])
  {
    SplitWithoutSeparator(s, '/');
    if MatchesName(s) {
      var api, slash, remotes, rest :| NameParts(s, api, slash, remotes, rest);
      MatchIsOneLine(s, api, slash, remotes, rest);
    }
    if OneLine(s) && '/' in s && MatchesThreeFields(Split(s, '/')[0]) {
      var rest := SplitAtFirst(s, '/');
      forall c | c in rest ensures !LineBreak(c) {
        assert c in s;
      }
      assert NameParts(s, Split(s, '/')[0], "/", "", rest);
    }
  }

  /** The strings the expression matches: one line, of which some first part is three fields. */
  lemma NameLanguage(s: string)
    ensures MatchesName(s) <==> OneLine(s) && exists n :: 0 <= n <= |s| && MatchesThreeFields(s[..n])
  {
    if MatchesName(s) {
      var api, slash, remotes, rest :| NameParts(s, api, slash, remotes, rest);
      MatchIsOneLine(s, api, slash, remotes, rest);
      assert s[..|api|] == api;
    }
    if n :| OneLine(s) && 0 <= n <= |s| && MatchesThreeFields(s[..n]) {
      assert s == s[..n] + "" + "" + s[n..];
      assert NameParts(s, s[..n], "", "", s[n..]);
    }
  }

  lemma ThreeFieldsMatch(s: string)
    requires MatchesThreeFields(s)
    ensures MatchesName(s) && '/' !in s
  {
    FieldsAreOneLine(s, 3);
    assert s[..|s|] == s;
    NameLanguage(s);
  }

  /** The errors of reading a name.  An API alone, with no slash behind it, matches the expression but
      ends as an index out of range. */
  lemma NameErrors(s: string)
    ensures NameFromString(s) == Failure(OutOfRange) <==> MatchesThreeFields(s)
    ensures NameFromString(s) == Failure(InvalidName) <==> !MatchesName(s)
    ensures NameFromString(s) == Failure(InvalidApi) <==> MatchesName(s) && !MatchesThreeFields(Split(s, '/')[0])
  {
    SplitWithoutSeparator(s, '/');
    if MatchesThreeFields(s) {
      ThreeFieldsMatch(s);
    }
  }

  /** Free of the separators and line breaks that the printed form cannot carry in a part. */
  predicate IsClean(s: string) {
    ':' !in s && '/' !in s && OneLine(s)
  }

  lemma PrintedName(api: API, tail: string)
    requires WellFormedApi(api)
    ensures Split(ApiToString(api) + "/" + tail, '/') == [ApiToString(api)] + Split(tail, '/')
    ensures OneLine(ApiToString(api))
  {
    var s := ApiToString(api);
    forall c | c in s ensures c == ':' || WordCharacter(c) {
      assert c in api.namespace || c in api.resourceType || c in api.subtype || c == ':';
    }
    SplitWithoutSeparator(s, '/');
    SplitConcat(s, tail, '/');
  }

  lemma CleanNameIsReadBack(n: Name)
    requires WellFormedApi(n.api) && IsClean(n.remote) && IsClean(n.name)
    ensures NameFromString(NameToString(n)) == Success(n)
  {
    var s, tail := NameToString(n), Tail(n);
    assert s == ApiToString(n.api) + "/" + tail;
    PrintedName(n.api, tail);
    ApiRoundTrip(n.api);
    SplitWithoutSeparator(tail, '/');
    forall c | c in s ensures !LineBreak(c) {
      assert c in ApiToString(n.api) || c == '/' || c in tail;
    }
    assert s[|ApiToString(n.api)|] == '/';
    NameFromStringSucceedsIff(s);
    SplitWithoutSeparator(n.name, ':');
    if n.remote != "" {
      SplitConcat(n.remote, n.name, ':');
      SplitWithoutSeparator(n.remote, ':');
    }
  }

  lemma PartIsClean(tail: string, part: string)
    requires OneLine(tail) && part in Split(Split(tail, '/')[0], ':')
    ensures IsClean(part)
  {
    forall c | c in part ensures c != ':' && c != '/' && !LineBreak(c) {
      PartCharacters(Split(tail, '/')[0], ':', part, c);
      PartCharacters(tail, '/', Split(tail, '/')[0], c);
    }
  }

  lemma ReadBackNameIsClean(n: Name)
    requires NameFromString(NameToString(n)) == Success(n)
    ensures WellFormedApi(n.api) && IsClean(n.remote) && IsClean(n.name)
  {
    var s, tail := NameToString(n), Tail(n);
    assert s == ApiToString(n.api) + "/" + tail;
    NameFromStringSucceedsIff(s);
    var fields := Split(Split(s, '/')[0], ':');
    assert IsField(fields[0]) && IsField(fields[1]) && IsField(fields[2]);
    PrintedName(n.api, tail);
    forall c | c in tail ensures !LineBreak(c) {
      assert c in s;
    }
    var colons := Split(Split(tail, '/')[0], ':');
    assert Split(s, '/')[1] == Split(tail, '/')[0];
    PartIsClean(tail, colons[0]);
    if |colons| > 1 {
      PartIsClean(tail, colons[1]);
    }
  }

  lemma FirstPart(s: string, rest: string, sep: char)
    requires sep !in s && (rest == "" || rest[0] == sep)
    ensures Split(s + rest, sep)[0] == s
    ensures |Split(s + rest, sep)| == 1 <==> rest == ""
  {
    SplitWithoutSeparator(s, sep);
    if rest == "" {
      assert s + rest == s;
    } else {
      assert s + rest == s + [sep] + rest[1..];
      SplitConcat(s, rest[1..], sep);
    }
  }

  lemma TailOfPrinted(api: API, tail: string)
    requires WellFormedApi(api) && OneLine(tail)
    ensures var s := ApiToString(api) + "/" + tail;
      MatchesName(s) && Split(s, '/') == [ApiToString(api)] + Split(tail, '/')
  {
    var s := ApiToString(api) + "/" + tail;
    PrintedName(api, tail);
    ApiRoundTrip(api);
    assert s[|ApiToString(api)|] == '/';
    OneLineConcat(ApiToString(api) + "/", tail);
    NameFromStringSucceedsIff(s);
  }

  /** After the slash, the part before the first colon is read as the remote and the part up to the
      next colon or slash as the name; what follows is dropped. */
  lemma QualifiedNameIsRead(api: API, remote: string, name: string, rest: string)
    requires WellFormedApi(api) && IsClean(remote) && IsClean(name) && OneLine(rest)
    requires rest == "" || rest[0] == ':' || rest[0] == '/'
    ensures NameFromString(ApiToString(api) + "/" + remote + ":" + name + rest) == Success(Name(api, remote, name))
  {
    var tail := remote + ":" + name + rest;
    assert ApiToString(api) + "/" + remote + ":" + name + rest == ApiToString(api) + "/" + tail;
    OneLineConcat(remote, ":");
    OneLineConcat(remote + ":", name);
    OneLineConcat(remote + ":" + name, rest);
    TailOfPrinted(api, tail);
    ApiRoundTrip(api);
    QualifiedTail(remote, name, rest);
  }

  lemma QualifiedTail(remote: string, name: string, rest: string)
    requires IsClean(remote) && IsClean(name)
    requires rest == "" || rest[0] == ':' || rest[0] == '/'
    ensures var colons := Split(Split(remote + ":" + name + rest, '/')[0], ':');
      |colons| > 1 && colons[0] == remote && colons[1] == name
  {
    var kept := Split(rest, '/')[0];
    FirstOfTail(remote + ":" + name, rest);
    assert remote + ":" + name + kept == remote + ":" + (name + kept);
    SplitConcat(remote, name + kept, ':');
    SplitWithoutSeparator(remote, ':');
    FirstPart(name, kept, ':');
  }

  lemma {:induction false} FirstOfTail(s: string, rest: string)
    requires '/' !in s
    ensures Split(s + rest, '/')[0] == s + Split(rest, '/')[0]
    ensures rest != "" && rest[0] == ':' ==> Split(rest, '/')[0] != "" && Split(rest, '/')[0][0] == ':'
    ensures rest == "" || rest[0] == '/' ==> Split(rest, '/')[0] == ""
  {
    if s == "" {
      assert s + rest == rest;
    } else {
      assert (s + rest)[1..] == s[1..] + rest;
      FirstOfTail(s[1..], rest);
      assert s == [s[0]] + s[1..];
    }
  }

  /** With no colon before the next slash there is no remote. */
  lemma PlainNameIsRead(api: API, name: string, rest: string)
    requires WellFormedApi(api) && IsClean(name) && OneLine(rest)
    requires rest == "" || rest[0] == '/'
    ensures NameFromString(ApiToString(api) + "/" + name + rest) == Success(Name(api, "", name))
  {
    assert ApiToString(api) + "/" + name + rest == ApiToString(api) + "/" + (name + rest);
    OneLineConcat(name, rest);
    TailOfPrinted(api, name + rest);
    ApiRoundTrip(api);
    FirstPart(name, rest, '/');
    SplitWithoutSeparator(name, ':');
  }

  /** A name is read back from its printed form exactly when its API is well formed and its remote
      and its name hold no colon, slash or line break. */
  lemma NameStringRoundTrip(n: Name)
    ensures NameFromString(NameToString(n)) == Success(n) <==>
      WellFormedApi(n.api) && IsClean(n.remote) && IsClean(n.name)
  {
    if WellFormedApi(n.api) && IsClean(n.remote) && IsClean(n.name) {
      CleanNameIsReadBack(n);
    }
    if NameFromString(NameToString(n)) == Success(n) {
      ReadBackNameIsClean(n);
    }
  }
}
