/**
 * The search of the HTML entity table: an empty search shows the whole
 * table; otherwise the search is lower-cased and an entry stays when its
 * character contains it as it is, or its lower-cased entity or
 * description contains it.
 */
module HtmlSpecialChars {
  import opened Strings

  /** One row of the table. */
  datatype HtmlChar = HtmlChar(entity: string, character: string, description: string)

  /** The table, in its own order. */
  const HtmlChars: seq<HtmlChar> := [
    HtmlChar("&lt;", "<", "小于号"),
    HtmlChar("&gt;", ">", "大于号"),
    HtmlChar("&amp;", "&", "和号"),
    HtmlChar("&quot;", "\"", "双引号"),
    HtmlChar("&apos;", "'", "单引号"),
    HtmlChar("&nbsp;", "\U{00A0}", "不换行空格"),
    HtmlChar("&copy;", "©", "版权符号"),
    HtmlChar("&reg;", "®", "注册商标"),
    HtmlChar("&euro;", "€", "欧元符号"),
    HtmlChar("&yen;", "¥", "日元符号"),
    HtmlChar("&cent;", "¢", "分符号"),
    HtmlChar("&sect;", "§", "节符号"),
    HtmlChar("&trade;", "™", "商标符号"),
    HtmlChar("&plusmn;", "±", "正负号"),
    HtmlChar("&times;", "×", "乘号"),
    HtmlChar("&divide;", "÷", "除号"),
    HtmlChar("&deg;", "°", "度数符号"),
    HtmlChar("&micro;", "µ", "微符号"),
    HtmlChar("&para;", "¶", "段落符号"),
    HtmlChar("&middot;", "·", "中点"),
    HtmlChar("&hellip;", "…", "省略号"),
    HtmlChar("&laquo;", "«", "左双引号"),
    HtmlChar("&raquo;", "»", "右双引号"),
    HtmlChar("&lsquo;", "‘", "左单引号"),
    HtmlChar("&rsquo;", "’", "右单引号"),
    HtmlChar("&ldquo;", "“", "左双引号"),
    HtmlChar("&rdquo;", "”", "右双引号"),
    HtmlChar("&ndash;", "–", "短横线"),
    HtmlChar("&mdash;", "—", "长横线")
  ]

  /** The filter's test for an already lower-cased search `s`: the
      character is compared as it is, entity and description lower-cased. */
  predicate Keep(item: HtmlChar, s: string) {
    Contains(item.character, s) || Contains(Lower(item.entity), s) || Contains(Lower(item.description), s)
  }

  /** `items.filter(...)` with the test above. */
  function FilterBy(items: seq<HtmlChar>, s: string): (r: seq<HtmlChar>)
    ensures |r| <= |items|
  {
    if |items| == 0 then []
    else (if Keep(items[0], s) then [items[0]] else []) + FilterBy(items[1..], s)
  }

  /** `filteredChars`: the whole table for an empty search, the lower-cased
      search's matches otherwise. */
  function Filter(search: string): seq<HtmlChar> {
    if search == "" then HtmlChars else FilterBy(HtmlChars, Lower(search))
  }

  // ---------------------------------------------------------------------
  // Reference definitions

  /** `a` is `b` with some elements left out, the rest in their order. */
  predicate Subsequence<T(==)>(a: seq<T>, b: seq<T>)
    decreases |b|
  {
    if |a| == 0 then true
    else if |b| == 0 then false
    else (a[0] == b[0] && Subsequence(a[1..], b[1..])) || Subsequence(a, b[1..])
  }

  // ---------------------------------------------------------------------
  // Properties

  /** An entry is in the result exactly when it is in the input and passes
      the test. */
  lemma {:induction false} FilterByMembers(items: seq<HtmlChar>, s: string, x: HtmlChar)
    ensures x in FilterBy(items, s) <==> x in items && Keep(x, s)
  {
    if |items| > 0 {
      FilterByMembers(items[1..], s, x);
      assert items == [items[0]] + items[1..];
    }
  }

  /** The result keeps the input's order: it is a subsequence of it. */
  lemma {:induction false} FilterByOrdered(items: seq<HtmlChar>, s: string)
    ensures Subsequence(FilterBy(items, s), items)
  {
    if |items| > 0 {
      FilterByOrdered(items[1..], s);
      var rest := FilterBy(items[1..], s);
      if Keep(items[0], s) {
        assert FilterBy(items, s) == [items[0]] + rest;
        assert ([items[0]] + rest)[1..] == rest;
      } else {
        assert FilterBy(items, s) == rest;
        if |rest| > 0 {
          assert Subsequence(rest, items[1..]);
        }
      }
    }
  }

  /** An empty search shows the whole table; any other search shows, in
      table order, exactly the entries that pass the test for the
      lower-cased search. */
  lemma FilterSpec(search: string, x: HtmlChar)
    ensures search == "" ==> Filter(search) == HtmlChars
    ensures search != "" ==> (x in Filter(search) <==> x in HtmlChars && Keep(x, Lower(search)))
    ensures Subsequence(Filter(search), HtmlChars)
  {
    FilterByMembers(HtmlChars, Lower(search), x);
    FilterByOrdered(HtmlChars, Lower(search));
    SubsequenceSelf(HtmlChars);
  }

  lemma {:induction false} SubsequenceSelf<T>(a: seq<T>)
    ensures Subsequence(a, a)
  {
    if |a| > 0 {
      SubsequenceSelf(a[1..]);
    }
  }

  /** Lower-casing twice is lower-casing once. */
  lemma LowerIdempotent(s: string)
    ensures Lower(Lower(s)) == Lower(s)
  {
    forall i | 0 <= i < |s| ensures Lower(Lower(s))[i] == Lower(s)[i] {
      assert Lower(s)[i] == LowerChar(s[i]);
    }
  }

  /** Entity and description are matched without regard to ASCII case:
      a search and its lower-cased form give the same result. */
  lemma FilterIgnoresCase(search: string)
    ensures Filter(search) == Filter(Lower(search))
  {
    LowerIdempotent(search);
  }

  /** The character is matched as it is: an entry whose character has an
      upper-case letter is not found by that character, unless its entity
      or description matches. */
  lemma CharacterNotLowered(item: HtmlChar, search: string)
    requires search != "" && 'A' <= search[0] <= 'Z' && item.character == search
    requires !Contains(Lower(item.entity), Lower(search)) && !Contains(Lower(item.description), Lower(search))
    ensures !Keep(item, Lower(search))
  {
    assert Lower(search)[0] != search[0];
    forall i | 0 <= i <= |item.character| - |Lower(search)| ensures !IsAt(item.character, Lower(search), i) {
      assert i == 0;
      assert item.character[0..|search|][0] != Lower(search)[0];
    }
  }

  /** A search written in upper case finds `<` by its entity. */
  lemma FindsLessThan()
    ensures HtmlChars[0] in Filter("&LT;") && HtmlChars[0].character == "<"
  {
    assert Lower("&LT;") == "&lt;";
    assert IsAt(Lower(HtmlChars[0].entity), "&lt;", 0);
    FilterSpec("&LT;", HtmlChars[0]);
  }
}
