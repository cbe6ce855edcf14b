/** The closed list of node types, node attributes, marks and link schemes a rich text document may use. */
module RichText {
  import opened Wrappers

  /** A JSON value, as far as the schemas look at one. */
  datatype Value = Null | Flag(on: bool) | Whole(n: int) | Fraction | Text(s: string) | Fields(fields: map<string, Value>)

  type Attributes = map<string, Value>

  /** What the schemas ask of other code: id shapes, URL parsing, and whitespace trimming. */
  datatype Env = Env(isValidId: string -> bool, protocolOf: string -> Option<string>, trim: string -> string)

  const MAX_URL_LENGTH := 2048
  const MAX_LANGUAGE_LENGTH := 40
  const MAX_MENTION_LENGTH := 120
  const MAX_TITLE_LENGTH := 500

  predicate IsPlainNode(name: string) {
    name in {"doc", "paragraph", "text", "hardBreak", "horizontalRule", "blockquote", "bulletList", "listItem", "taskList"}
  }

  predicate IsKnownNode(name: string) {
    IsPlainNode(name) || name in {"orderedList", "heading", "codeBlock", "taskItem", "mention", "pageLink"}
  }

  predicate IsLabel(env: Env, value: Value, longest: nat) {
    value.Text? && 1 <= |env.trim(value.s)| <= longest
  }

  predicate IsIdText(env: Env, value: Value) {
    value.Text? && env.isValidId(value.s)
  }

  /** Strict per-node attribute schemas: an attribute not named is refused. */
  predicate AttributesAreValid(env: Env, name: string, attrs: Attributes)
    requires IsKnownNode(name)
  {
    if IsPlainNode(name) then attrs.Keys == {}
    else if name == "orderedList" then
      attrs.Keys <= {"start"} && ("start" in attrs ==> attrs["start"].Whole? && attrs["start"].n >= 0)
    else if name == "heading" then
      attrs.Keys == {"level"} && attrs["level"].Whole? && 1 <= attrs["level"].n <= 6
    else if name == "codeBlock" then
      attrs.Keys <= {"language"} &&
      ("language" in attrs ==>
         attrs["language"].Null? || (attrs["language"].Text? && |attrs["language"].s| <= MAX_LANGUAGE_LENGTH))
    else if name == "taskItem" then
      attrs.Keys == {"checked"} && attrs["checked"].Flag?
    else if name == "mention" then
      attrs.Keys == {"userId", "label"} && IsIdText(env, attrs["userId"]) && IsLabel(env, attrs["label"], MAX_MENTION_LENGTH)
    else
      attrs.Keys == {"pageId", "label"} && IsIdText(env, attrs["pageId"]) && IsLabel(env, attrs["label"], MAX_TITLE_LENGTH)
  }

  /** The types that cannot do without attributes. */
  predicate NeedsAttributes(name: string) {
    name in {"heading", "taskItem", "mention", "pageLink"}
  }

  lemma EmptyAttributesAreValidIff(env: Env, name: string)
    requires IsKnownNode(name)
    ensures AttributesAreValid(env, name, map[]) <==> !NeedsAttributes(name)
  {
  }

  predicate IsSafeUrl(env: Env, url: string) {
    |url| <= MAX_URL_LENGTH && env.protocolOf(url).Some? && env.protocolOf(url).value in {"http:", "https:", "mailto:"}
  }

  predicate LinkIsValid(env: Env, attrs: Attributes) {
    && "href" in attrs.Keys && attrs.Keys <= {"href", "target"}
    && attrs["href"].Text? && IsSafeUrl(env, attrs["href"].s)
    && ("target" in attrs ==>
          attrs["target"].Null? || (attrs["target"].Text? && attrs["target"].s in {"_blank", "_self"}))
  }

  /** A mark carries attributes only when its value is an object with at least one field. */
  predicate MarkIsValid(env: Env, mark: string, value: Value) {
    if value.Fields? && value.fields.Keys != {} then mark == "link" && LinkIsValid(env, value.fields)
    else mark in {"bold", "italic", "strike", "code", "underline"}
  }

  /* ------------------------------- mark names ------------------------------- */

  const HASH_LENGTH := 8

  predicate IsHashChar(c: char) {
    'a' <= c <= 'z' || 'A' <= c <= 'Z' || '0' <= c <= '9' || c == '+' || c == '/' || c == '='
  }

  predicate IsHash(s: string) {
    |s| == HASH_LENGTH && forall i :: 0 <= i < |s| ==> IsHashChar(s[i])
  }

  predicate IsLineBreak(c: char) {
    c == '\n' || c == '\r' || c == '\U{2028}' || c == '\U{2029}'
  }

  /** What `.*` can still match when it has to end where `s` ends. */
  function LastLine(s: string): (line: string)
    ensures |line| <= |s| && line == s[|s| - |line|..]
    ensures forall i :: 0 <= i < |line| ==> !IsLineBreak(line[i])
    ensures line != s ==> IsLineBreak(s[|s| - |line| - 1])
  {
    if s == [] || IsLineBreak(s[|s| - 1]) then []
    else LastLine(s[..|s| - 1]) + [s[|s| - 1]]
  }

  /** Drops one disambiguating suffix, two dashes and a hash, from a mark's key. */
  function BaseMarkName(key: string): string {
    var cut := |key| - HASH_LENGTH - 2;
    if cut >= 0 && key[cut..cut + 2] == "--" && IsHash(key[cut + 2..]) then LastLine(key[..cut]) else key
  }

  /** Suffixing a one-line mark name and taking the suffix off again gives the name back. */
  lemma SuffixedMarkKeepsItsName(name: string, hash: string)
    requires IsHash(hash)
    ensures BaseMarkName(name + "--" + hash) == LastLine(name)
    ensures (forall i :: 0 <= i < |name| ==> !IsLineBreak(name[i])) <==> BaseMarkName(name + "--" + hash) == name
  {
    SuffixIsCut(name, hash);
    hide BaseMarkName, IsHash;
    if LastLine(name) != name {
      assert IsLineBreak(name[|name| - |LastLine(name)| - 1]);
    }
  }

  lemma SuffixIsCut(name: string, hash: string)
    requires IsHash(hash)
    ensures BaseMarkName(name + "--" + hash) == LastLine(name)
  {
    hide LastLine, IsHashChar;
    var key := name + "--" + hash;
    assert key[|name|..|name| + 2] == "--" && key[|name| + 2..] == hash && key[..|name|] == name;
  }

  predicate IsSuffixed(key: string, name: string, hash: string) {
    key == name + "--" + hash && IsHash(hash)
  }

  /** A key that is not a name with a suffix is a name. */
  lemma UnsuffixedMarkIsItsName(key: string)
    requires forall name, hash :: !IsSuffixed(key, name, hash)
    ensures BaseMarkName(key) == key
  {
    var cut := |key| - HASH_LENGTH - 2;
    if cut >= 0 && key[cut..cut + 2] == "--" {
      assert key == key[..cut] + "--" + key[cut + 2..];
      assert !IsSuffixed(key, key[..cut], key[cut + 2..]);
    }
  }

  lemma HashAlphabet(c: char)
    ensures IsHashChar(c) <==> c in "ABCDEFGHIJKLMNOPQRSTUVWXYZ" || c in "abcdefghijklmnopqrstuvwxyz" || c in "0123456789+/="
  {
  }

  /* ------------------------------- what the schemas come to ------------------------------- */

  /** A reference as written: an id and a label not blank and not too long. */
  ghost predicate IsReference(env: Env, attrs: Attributes, key: string, longest: nat) {
    exists id, text :: attrs == map[key := Text(id), "label" := Text(text)] && env.isValidId(id)
                       && 1 <= |env.trim(text)| && |env.trim(text)| <= longest
  }

  /** The elements a document may hold, one by one. */
  ghost predicate IsElement(env: Env, name: string, attrs: Attributes) {
    || (name in {"doc", "paragraph", "text", "hardBreak", "horizontalRule", "blockquote", "bulletList", "listItem", "taskList"}
        && attrs == map[])
    || (name == "orderedList" && (attrs == map[] || exists n :: n >= 0 && attrs == map["start" := Whole(n)]))
    || (name == "heading" && exists n :: n in {1, 2, 3, 4, 5, 6} && attrs == map["level" := Whole(n)])
    || (name == "codeBlock" && (attrs == map[] || attrs == map["language" := Null]
                                || exists s :: |s| <= 40 && attrs == map["language" := Text(s)]))
    || (name == "taskItem" && exists b :: attrs == map["checked" := Flag(b)])
    || (name == "mention" && IsReference(env, attrs, "userId", 120))
    || (name == "pageLink" && IsReference(env, attrs, "pageId", 500))
  }

  lemma OneKey(attrs: Attributes, key: string)
    requires attrs.Keys == {key}
    ensures attrs == map[key := attrs[key]]
  {
  }

  lemma TwoKeys(attrs: Attributes, key: string, other: string)
    requires attrs.Keys == {key, other}
    ensures attrs == map[key := attrs[key], other := attrs[other]]
  {
  }

  lemma KeyOrNone(attrs: Attributes, key: string)
    ensures attrs.Keys <= {key} <==> attrs == map[] || attrs.Keys == {key}
    ensures attrs == map[] <==> attrs.Keys == {}
    ensures attrs.Keys == {key} ==> attrs == map[key := attrs[key]]
  {
  }

  lemma ReferencesAreLabelled(env: Env, attrs: Attributes, key: string, longest: nat)
    requires key != "label"
    ensures IsReference(env, attrs, key, longest) <==>
            attrs.Keys == {key, "label"} && IsIdText(env, attrs[key]) && IsLabel(env, attrs["label"], longest)
  {
    if attrs.Keys == {key, "label"} {
      TwoKeys(attrs, key, "label");
    }
  }

  /** The node and attribute schemas together admit these elements and no others. */
  lemma SchemasAdmitExactly(env: Env, name: string, attrs: Attributes)
    ensures IsKnownNode(name) && AttributesAreValid(env, name, attrs) <==> IsElement(env, name, attrs)
  {
    if name in {"mention", "pageLink"} {
      hide IsReference, IsLabel, IsIdText;
      ReferencesAreLabelled(env, attrs, "userId", 120);
      ReferencesAreLabelled(env, attrs, "pageId", 500);
    } else if name in {"heading", "taskItem"} {
      hide IsReference;
      RequiredAttribute(env, name, attrs);
    } else if name in {"orderedList", "codeBlock"} {
      hide IsReference, AttributesAreValid;
      OrderedListAttributes(env, attrs);
      CodeBlockAttributes(env, attrs);
    } else {
      KeyOrNone(attrs, "");
    }
  }

  lemma RequiredAttribute(env: Env, name: string, attrs: Attributes)
    requires name in {"heading", "taskItem"}
    ensures IsKnownNode(name) && AttributesAreValid(env, name, attrs) <==> IsElement(env, name, attrs)
  {
    hide IsReference;
    KeyOrNone(attrs, if name == "heading" then "level" else "checked");
  }

  lemma OrderedListAttributes(env: Env, attrs: Attributes)
    ensures AttributesAreValid(env, "orderedList", attrs)
            <==> attrs == map[] || exists n :: n >= 0 && attrs == map["start" := Whole(n)]
  {
    KeyOrNone(attrs, "start");
  }

  lemma CodeBlockSchema(env: Env, attrs: Attributes)
    ensures AttributesAreValid(env, "codeBlock", attrs) <==>
            attrs.Keys <= {"language"} &&
            ("language" in attrs ==> attrs["language"].Null? || (attrs["language"].Text? && |attrs["language"].s| <= 40))
  {
  }

  lemma CodeBlockAttributes(env: Env, attrs: Attributes)
    ensures AttributesAreValid(env, "codeBlock", attrs)
            <==> attrs == map[] || attrs == map["language" := Null] || exists s :: |s| <= 40 && attrs == map["language" := Text(s)]
  {
    hide AttributesAreValid;
    CodeBlockSchema(env, attrs);
    KeyOrNone(attrs, "language");
  }

  /** A link as written: a web or mail address not too long, opened here, in a new tab, or as it comes. */
  ghost predicate IsLinkTo(env: Env, attrs: Attributes, url: string, target: Value) {
    && (attrs == map["href" := Text(url)]
        || (attrs == map["href" := Text(url), "target" := target] && target in {Null, Text("_blank"), Text("_self")}))
    && |url| <= 2048 && env.protocolOf(url) in {Some("http:"), Some("https:"), Some("mailto:")}
  }

  ghost predicate IsLink(env: Env, attrs: Attributes) {
    exists url, target :: IsLinkTo(env, attrs, url, target)
  }

  /** The marks a run may carry: five that say nothing more, and links. */
  lemma MarksAdmitExactly(env: Env, mark: string, value: Value)
    ensures MarkIsValid(env, mark, value) <==>
            if value.Fields? && value.fields != map[] then mark == "link" && IsLink(env, value.fields)
            else mark in {"bold", "italic", "strike", "code", "underline"}
  {
    if value.Fields? {
      KeyOrNone(value.fields, "href");
      LinksAdmitExactly(env, value.fields);
    }
  }

  lemma LinksAdmitExactly(env: Env, attrs: Attributes)
    ensures LinkIsValid(env, attrs) <==> IsLink(env, attrs)
  {
    if LinkIsValid(env, attrs) {
      var url := attrs["href"].s;
      if "target" in attrs {
        TwoKeys(attrs, "href", "target");
        assert IsLinkTo(env, attrs, url, attrs["target"]);
      } else {
        OneKey(attrs, "href");
        assert IsLinkTo(env, attrs, url, Null);
      }
    }
  }
}
