/** Link resolution of `src/lib/url.ts`: site-relative paths are put under the base path the
    site is served from, absolute web and mail links are kept, and links to other sites open
    in a new tab. The build's base path is a parameter; `None` stands for an unset value. */
module Url {
  import opened Wrappers
  import opened Strings

  const HttpScheme: string := "http://"
  const HttpsScheme: string := "https://"
  const MailtoScheme: string := "mailto:"
  const RootBase: string := "/"

  /** `/^https?:\/\//.test(href)`: `http`, an optional `s`, then `://`, at the start. */
  predicate IsExternalUrl(href: string)
  {
    StartsWith(href, "http") &&
    var rest := if |href| > 4 && href[4] == 's' then href[5..] else href[4..];
    StartsWith(rest, "://")
  }

  /** The pattern accepts exactly the links whose scheme is `http` or `https`, in lower case. */
  lemma ExternalIff(href: string)
    ensures IsExternalUrl(href) <==> StartsWith(href, HttpScheme) || StartsWith(href, HttpsScheme)
  {
    if StartsWith(href, HttpScheme) {
      assert href[..4] == HttpScheme[..4] && href[4] == ':';
      assert href[4..][..3] == href[4..7];
    } else if StartsWith(href, HttpsScheme) {
      assert href[..4] == HttpsScheme[..4] && href[4] == 's';
      assert href[5..][..3] == href[5..8];
    }
    if IsExternalUrl(href) {
      if |href| > 4 && href[4] == 's' {
        assert href[..8] == href[..4] + ['s'] + href[5..][..3];
      } else {
        assert href[..7] == href[..4] + href[4..][..3];
      }
    }
  }

  /** A mail link is not external. */
  lemma MailtoNotExternal(href: string)
    requires StartsWith(href, MailtoScheme)
    ensures !IsExternalUrl(href)
  {
    assert href[0] == 'm';
  }

  /** A path beginning with `/` is not external. */
  lemma SlashNotExternal(href: string)
    requires StartsWith(href, RootBase)
    ensures !IsExternalUrl(href) && !StartsWith(href, MailtoScheme)
  {
    assert href[0] == '/';
  }

  /** A leading `/`, added when missing. */
  function NormalizePath(href: string): (r: string)
    ensures StartsWith(r, RootBase)
    ensures StartsWith(href, RootBase) ==> r == href
    ensures !StartsWith(href, RootBase) ==> r == RootBase + href
  {
    if StartsWith(href, RootBase) then href else RootBase + href
  }

  /** The base without one trailing `/` (`slice(0, -1)`), when it has one. */
  function DropTrailingSlash(base: string): (r: string)
    ensures base != [] && base[|base| - 1] == '/' ==> r + "/" == base
    ensures base == [] || base[|base| - 1] != '/' ==> r == base
  {
    if base != [] && base[|base| - 1] == '/' then base[..|base| - 1] else base
  }

  /** `import.meta.env.BASE_URL ?? "/"`. */
  function BaseOf(base: Option<string>): string
  {
    if base.Some? then base.value else RootBase
  }

  /** `toPublicUrl(href)` under the base path `base`. */
  function ToPublicUrl(href: string, base: Option<string>): (r: string)
    ensures IsExternalUrl(href) || StartsWith(href, MailtoScheme) ==> r == href
    ensures !(IsExternalUrl(href) || StartsWith(href, MailtoScheme)) && BaseOf(base) == RootBase
      ==> r == NormalizePath(href)
    ensures !(IsExternalUrl(href) || StartsWith(href, MailtoScheme)) && BaseOf(base) != RootBase
      ==> r == DropTrailingSlash(BaseOf(base)) + NormalizePath(href)
  {
    if IsExternalUrl(href) || StartsWith(href, MailtoScheme) then href
    else
      var path := NormalizePath(href);
      var b := BaseOf(base);
      if b == RootBase then path else DropTrailingSlash(b) + path
  }

  /** Under the root base, every result is external, a mail link, or a path starting with `/`. */
  lemma RootResultShape(href: string, base: Option<string>)
    requires BaseOf(base) == RootBase
    ensures var r := ToPublicUrl(href, base);
      IsExternalUrl(r) || StartsWith(r, MailtoScheme) || StartsWith(r, RootBase)
  {
  }

  /** Under the root base, resolving a resolved link changes nothing. */
  lemma ToPublicUrlIdempotent(href: string, base: Option<string>)
    requires BaseOf(base) == RootBase
    ensures ToPublicUrl(ToPublicUrl(href, base), base) == ToPublicUrl(href, base)
  {
    var r := ToPublicUrl(href, base);
    if !(IsExternalUrl(href) || StartsWith(href, MailtoScheme)) {
      SlashNotExternal(r);
    }
  }

  /** Under another base, a relative path gets the base, without its trailing `/`, in front:
      the path is never put under the root of the host. */
  lemma ToPublicUrlUnderBase(path: string, base: string)
    requires base != RootBase
    requires StartsWith(path, RootBase)
    ensures ToPublicUrl(path, Some(base)) == DropTrailingSlash(base) + path
  {
    SlashNotExternal(path);
  }

  /** At most one trailing `/` is removed from the base. */
  lemma OneSlashDropped(b: string, path: string)
    requires StartsWith(path, RootBase)
    ensures ToPublicUrl(path, Some(b + "//")) == b + "/" + path
  {
    SlashNotExternal(path);
    var base := b + "//";
    assert base[..|base| - 1] == b + "/";
  }

  /** The result of `resolveLink`. */
  datatype ResolvedLink = ResolvedLink(href: string, external: bool, target: Option<string>, rel: Option<string>)

  const BlankTarget: string := "_blank"
  const NoReferrer: string := "noreferrer"

  /** `resolveLink(href)`: the public URL, whether it leads off the site, and then a new-tab
      target and a no-referrer relation, both or neither. */
  function ResolveLink(href: string, base: Option<string>): (r: ResolvedLink)
    ensures r.href == ToPublicUrl(href, base)
    ensures r.external <==> IsExternalUrl(r.href)
    ensures r.target.Some? <==> r.external
    ensures r.rel.Some? <==> r.external
    ensures r.target.Some? ==> r.target.value == BlankTarget
    ensures r.rel.Some? ==> r.rel.value == NoReferrer
  {
    var resolved := ToPublicUrl(href, base);
    var external := IsExternalUrl(resolved);
    ResolvedLink(resolved, external,
      if external then Some(BlankTarget) else None,
      if external then Some(NoReferrer) else None)
  }

  /** Web links stay as they are and open in a new tab; mail links stay as they are and do not. */
  lemma ResolveAbsoluteLinks(href: string, base: Option<string>)
    ensures IsExternalUrl(href) ==> ResolveLink(href, base) == ResolvedLink(href, true, Some(BlankTarget), Some(NoReferrer))
    ensures StartsWith(href, MailtoScheme) ==> ResolveLink(href, base) == ResolvedLink(href, false, None, None)
  {
    if StartsWith(href, MailtoScheme) {
      MailtoNotExternal(href);
    }
  }

  /** Under the root base, a site path is never taken for an external link. */
  lemma ResolveSitePath(href: string, base: Option<string>)
    requires BaseOf(base) == RootBase
    requires !IsExternalUrl(href) && !StartsWith(href, MailtoScheme)
    ensures ResolveLink(href, base) == ResolvedLink(NormalizePath(href), false, None, None)
  {
    SlashNotExternal(NormalizePath(href));
  }
}
