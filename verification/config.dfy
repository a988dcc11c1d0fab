/** The configuration constants the modelled operations are run with
    (chatter/config.py). The operations themselves take these as
    parameters; this module records the shipped values. */
module Config {
  import Util

  /** How many failed requests a URL (or a classification) is allowed. */
  const UrlMaintenanceRequestRetries: nat := 3

  /** URLs shorter than this are treated as link-shortener URLs to resolve. */
  const MaxTinyUrlLength: nat := 30

  /** The ignore set exactly as the source literal builds it: two adjacent
      string literals with no comma between them are concatenated, so the
      set holds one host name nobody uses instead of two real ones. */
  const DomainsToIgnoreAsWritten: set<string> :=
    {"twitter.com", "www.youtube.com" + "www.facebook.com", "youtu.be", "www.instagram.com"}

  /** The ignore set the literal evidently means: five separate hosts. */
  const DomainsToIgnore: set<string> :=
    {"twitter.com", "www.youtube.com", "www.facebook.com", "youtu.be", "www.instagram.com"}

  /** The settings the operations of the model take as a parameter. */
  datatype Settings = Settings(domainsToIgnore: set<string>, requestRetries: nat, maxTinyUrlLength: nat)

  /** As written, links to YouTube and Facebook are not ignored, although the
      neighbouring short-link host `youtu.be` is. */
  lemma AsWrittenMissesYoutubeAndFacebook(lib: Util.Lib)
    requires lib.parse("https://www.youtube.com/watch").netloc == "www.youtube.com"
    requires lib.parse("https://www.facebook.com/story").netloc == "www.facebook.com"
    requires lib.parse("https://youtu.be/x").netloc == "youtu.be"
    ensures !Util.GetDomainIgnore("https://www.youtube.com/watch", DomainsToIgnoreAsWritten, lib).1
    ensures !Util.GetDomainIgnore("https://www.facebook.com/story", DomainsToIgnoreAsWritten, lib).1
    ensures Util.GetDomainIgnore("https://youtu.be/x", DomainsToIgnoreAsWritten, lib).1
  {
    assert "www.youtube.com" + "www.facebook.com" != "www.youtube.com" by {
      assert |"www.youtube.com" + "www.facebook.com"| != |"www.youtube.com"|;
    }
    assert "www.youtube.com" + "www.facebook.com" != "www.facebook.com" by {
      assert |"www.youtube.com" + "www.facebook.com"| != |"www.facebook.com"|;
    }
  }

  /** With the comma restored, both hosts are ignored, and matching stays
      exact: a subdomain of an ignored host is not ignored. */
  lemma CorrectedIgnoresYoutubeAndFacebook(lib: Util.Lib)
    requires lib.parse("https://www.youtube.com/watch").netloc == "www.youtube.com"
    requires lib.parse("https://www.facebook.com/story").netloc == "www.facebook.com"
    requires lib.parse("https://mobile.twitter.com/x").netloc == "mobile.twitter.com"
    ensures Util.GetDomainIgnore("https://www.youtube.com/watch", DomainsToIgnore, lib).1
    ensures Util.GetDomainIgnore("https://www.facebook.com/story", DomainsToIgnore, lib).1
    ensures !Util.GetDomainIgnore("https://mobile.twitter.com/x", DomainsToIgnore, lib).1
  {
    assert "mobile.twitter.com" != "twitter.com" by {
      assert |"mobile.twitter.com"| != |"twitter.com"|;
    }
  }
}
