/**
 * The Handlebars helpers of helpers/hbs.js that transform strings:
 * `truncate`, `stripTags` and `editIcon`.
 */
module Hbs {
  import opened Wrappers
  import opened JsStrings

  // ---------------------------------------------------------------- truncate

  /**
   * `truncate(str, length)`: a string longer than `length` is cut before the
   * last space of its first `length` characters and marked with "...". When
   * that space is missing or is the first character, the cut falls at
   * `length` itself; the `substr` clamping makes a search that found no space
   * (-1) produce the empty string, which sends it down that same path.
   */
  function Truncate(str: string, length: int): (r: string)
    ensures |str| <= length || str == [] ==> r == str
    ensures |str| > length && str != [] ==>
      && |r| >= 3
      && r[|r| - 3..] == "..."
      && r[..|r| - 3] <= str
      && |r| - 3 <= Clamp(length, 0, |str|)
  {
    if |str| > length && |str| > 0 then
      var head := Substr(str, 0, LastIndexOf(Substr(str, 0, length), ' '));
      (if |head| > 0 then head else Substr(str, 0, length)) + "..."
    else str
  }

  /**
   * When the first `length` characters hold a space after the first
   * position, the text is cut right before the last such space.
   */
  lemma TruncateCutsAtLastSpace(str: string, length: int, k: int)
    requires 0 < k < length < |str|
    requires str[k] == ' '
    requires forall j :: k < j < length ==> str[j] != ' '
    ensures Truncate(str, length) == str[..k] + "..."
  {
  }

  /**
   * When the first `length` characters hold no space, or only one at the
   * very start, the text is cut at `length`; a negative length leaves a
   * non-empty text nothing but the marker.
   */
  lemma TruncateCutsAtLength(str: string, length: int)
    requires length < |str|
    requires forall j :: 0 < j < length ==> str[j] != ' '
    ensures length >= 0 ==> Truncate(str, length) == str[..length] + "..."
    ensures length < 0 && str != [] ==> Truncate(str, length) == "..."
  {
  }

  // --------------------------------------------------------------- stripTags

  /**
   * The line terminators (section 12.3 of ECMA-262) that the `.` atom of
   * `<(?:.|\n)*?>` refuses, without the `s` flag, and that the `\n`
   * alternative does not cover: no tag match can run across one of them.
   */
  predicate Breaks(c: char) {
    c == '\r' || c == '\U{2028}' || c == '\U{2029}'
  }

  /** `s` holds no character a tag match cannot cross. */
  ghost predicate Unbroken(s: string) {
    forall i :: 0 <= i < |s| ==> !Breaks(s[i])
  }

  /**
   * The lazy part of the match after a `<`: the index in `t` of the first
   * `>`, provided no breaking terminator comes before it.
   */
  function TagClose(t: string): (r: Option<nat>)
    ensures r.Some? ==> r.value < |t| && t[r.value] == '>'
  {
    if t == [] then None
    else if t[0] == '>' then Some(0)
    else if Breaks(t[0]) then None
    else
      match TagClose(t[1..])
      case Some(j) => Some(j + 1)
      case None => None
  }

  /**
   * `input.replace(/<(?:.|\n)*?>/gm, '')`: scanning from the left, each `<`
   * that starts a match is dropped together with everything up to and
   * including the first `>` after it; every other character is kept.
   */
  function StripTags(s: string): (r: string)
    ensures |r| <= |s|
    decreases |s|
  {
    if s == [] then []
    else if s[0] == '<' && TagClose(s[1..]).Some? then StripTags(s[TagClose(s[1..]).value + 2..])
    else [s[0]] + StripTags(s[1..])
  }

  // ---------------------------------------------------------------- editIcon

  const EditPath := "/stories/edit/"
  const FloatingClass := " class=\"btn-floating halfway-fab blue\""

  /** The anchor the helper writes, with the template literal's line breaks and indentation. */
  function EditLink(storyId: string, floating: bool): string {
    "<a href=\"" + EditPath + storyId + "\"" + LinkTail(floating)
  }

  /** What follows the link target: the optional class, the icon and the closing tag. */
  function LinkTail(floating: bool): (t: string)
    ensures |t| > |FloatingClass| + 1
    ensures floating ==> FloatingClass + ">" <= t && t[0] == ' '
    ensures !floating ==> t[0] == '>'
    ensures t[|t| - 4..] == "</a>"
  {
    if floating then
      FloatingClass + ">\n"
      + "                            <i class=\"fas fa-edit fa-small\"></i>\n"
      + "                        </a>"
    else
      ">\n"
      + "                            <i class=\"fas fa-edit\"></i>\n"
      + "                        </a>"
  }

  /**
   * `editIcon(storyUser, loggedUser, storyId, floating = true)`: an edit
   * link for the story's owner and nothing for anyone else. The ids are the
   * `_id.toString()` forms; an omitted `floating` is `None`. (Handlebars
   * passes its options object in that position when a template omits it,
   * which is truthy and so selects the floating link too.)
   */
  function EditIcon(storyUser: string, loggedUser: string, storyId: string,
                    floating: Option<bool>): (r: string)
    ensures r == [] <==> storyUser != loggedUser
    ensures storyUser == loggedUser ==>
      && "<a href=\"" + EditPath + storyId + "\"" <= r
      && r[|r| - 4..] == "</a>"
  {
    if storyUser == loggedUser then EditLink(storyId, floating.GetOr(true))
    else ""
  }

  /** The parts of an edit link a reader of the page can see. */
  datatype Anchor = Anchor(href: string, floating: bool)

  /**
   * Reads back the target and the style of an anchor written as `EditLink`
   * writes it: `<a href="…"` followed by `>` or by the floating class.
   */
  function ParseAnchor(html: string): (a: Option<Anchor>)
    ensures a.Some? ==> "<a href=\"" + a.value.href + "\"" <= html && '"' !in a.value.href
  {
    var open := "<a href=\"";
    if !(open <= html) then None
    else
      var rest := html[|open|..];
      var q := IndexOf(rest, '"');
      if q < 0 then None
      else
        var href := rest[..q];
        var after := rest[q + 1..];
        assert html == open + href + "\"" + after;
        if ">" <= after then Some(Anchor(href, false))
        else if FloatingClass + ">" <= after then Some(Anchor(href, true))
        else None
  }
}
