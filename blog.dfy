/** The blog post record of models/Blog.js: its fields, the `trim` setter on
    the title and the `required` checks that validation applies on save. */
module Blog {

  /** A user id as the handlers compare it: the string form of the id. */
  type UserId = string

  /** A post's id in the post table. */
  type PostId = nat

  /** A stored post. `createdAt` and `updatedAt` are readings of a counter
      that stands for the clock behind the schema's timestamps. */
  datatype Post = Post(
    title: string,
    content: string,
    author: UserId,
    authorName: string,
    likes: seq<UserId>,
    createdAt: nat,
    updatedAt: nat)

  /** The characters JavaScript's String.prototype.trim removes: white space
      and line terminators. */
  predicate IsSpace(c: char)
  {
    || '\t' <= c <= '\r'
    || c == ' ' || c == '\U{A0}' || c == '\U{1680}'
    || '\U{2000}' <= c <= '\U{200A}'
    || c == '\U{2028}' || c == '\U{2029}' || c == '\U{202F}'
    || c == '\U{205F}' || c == '\U{3000}' || c == '\U{FEFF}'
  }

  /** `s` without its leading white space. */
  function TrimStart(s: string): (r: string)
    ensures |r| <= |s| && r == s[|s| - |r|..]
    ensures forall i :: 0 <= i < |s| - |r| ==> IsSpace(s[i])
    ensures r == [] || !IsSpace(r[0])
  {
    if s != [] && IsSpace(s[0]) then TrimStart(s[1..]) else s
  }

  /** `s` without its trailing white space. */
  function TrimEnd(s: string): (r: string)
    ensures |r| <= |s| && r == s[..|r|]
    ensures forall i :: |r| <= i < |s| ==> IsSpace(s[i])
    ensures r == [] || !IsSpace(r[|r| - 1])
  {
    if s != [] && IsSpace(s[|s| - 1]) then TrimEnd(s[..|s| - 1]) else s
  }

  /** Neither end of `s` is white space. */
  predicate Trimmed(s: string)
  {
    s == [] || (!IsSpace(s[0]) && !IsSpace(s[|s| - 1]))
  }

  /** The `trim: true` setter of the title field. */
  function Trim(s: string): (r: string)
    ensures Trimmed(r)
  {
    TrimEnd(TrimStart(s))
  }

  /** The trim setter leaves a string as it is exactly when neither of its
      ends is white space. */
  lemma TrimFixedIffTrimmed(s: string)
    ensures Trim(s) == s <==> Trimmed(s)
  {
    if Trimmed(s) {
      assert TrimStart(s) == s;
      assert TrimEnd(s) == s;
    }
  }

  /** Every character of `s` is white space. */
  predicate AllSpace(s: string)
  {
    forall k :: 0 <= k < |s| ==> IsSpace(s[k])
  }

  /** What TrimStart drops is white space. */
  lemma DroppedBeforeIsSpace(s: string)
    ensures AllSpace(s[..|s| - |TrimStart(s)|])
  {
    var t := TrimStart(s);
    var dropped := s[..|s| - |t|];
    forall k | 0 <= k < |dropped| ensures IsSpace(dropped[k]) {
      assert dropped[k] == s[k];
    }
  }

  /** What TrimEnd drops is white space. */
  lemma DroppedAfterIsSpace(t: string)
    ensures AllSpace(t[|TrimEnd(t)|..])
  {
    var u := TrimEnd(t);
    var dropped := t[|u|..];
    forall k | 0 <= k < |dropped| ensures IsSpace(dropped[k]) {
      assert dropped[k] == t[|u| + k];
    }
  }

  /** The bounds of the slice that trimming keeps. */
  lemma TrimBounds(s: string) returns (i: nat, j: nat)
    ensures i <= j <= |s| && Trim(s) == s[i..j]
    ensures AllSpace(s[..i]) && AllSpace(s[j..])
  {
    var t := TrimStart(s);
    var u := TrimEnd(t);
    i, j := |s| - |t|, |s| - |t| + |u|;
    PrefixOfSuffix(s, t, u);
    DroppedBeforeIsSpace(s);
    DroppedAfterIsSpace(t);
  }

  /** A prefix `u` of a suffix `t` of `s` is a slice of `s`, and what follows
      `u` in `t` is what follows it in `s`. */
  lemma PrefixOfSuffix(s: string, t: string, u: string)
    requires |t| <= |s| && t == s[|s| - |t|..]
    requires |u| <= |t| && u == t[..|u|]
    ensures u == s[|s| - |t|..|s| - |t| + |u|]
    ensures t[|u|..] == s[|s| - |t| + |u|..]
  {
  }

  /** Trimming removes white space at both ends and nothing else: the result
      is a slice of the input with only white space around it. */
  lemma TrimIsCore(s: string)
    ensures exists i, j :: 0 <= i <= j <= |s| && Trim(s) == s[i..j] && AllSpace(s[..i]) && AllSpace(s[j..])
  {
    var i, j := TrimBounds(s);
  }

  /** Assigning a stored (trimmed) title to itself leaves it as it is. */
  lemma TrimIdempotent(s: string)
    ensures Trim(Trim(s)) == Trim(s)
  {
    TrimFixedIffTrimmed(Trim(s));
  }

  /** A title trims to nothing exactly when it is all white space. */
  lemma TrimEmptyIffBlank(s: string)
    ensures Trim(s) == [] <==> AllSpace(s)
  {
    TrimIsCore(s);
    var i, j :| 0 <= i <= j <= |s| && Trim(s) == s[i..j] && AllSpace(s[..i]) && AllSpace(s[j..]);
    if Trim(s) == [] {
      forall k | 0 <= k < |s| ensures IsSpace(s[k]) {
        if k < i {
          assert s[k] == s[..i][k];
        } else {
          assert s[k] == s[j..][k - j];
        }
      }
    }
  }

  /** What validation on save accepts: the required fields title, content,
      author and authorName are present and not empty, the title is in the
      trimmed form its setter stores, and every like is a user id that casts
      to an object id (an empty one does not). */
  predicate WellFormed(p: Post)
  {
    && p.title != [] && Trimmed(p.title)
    && p.content != []
    && p.author != []
    && p.authorName != []
    && "" !in p.likes
  }
}
