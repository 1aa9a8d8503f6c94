/**
 * Worked cases of the traversal and of batch detection on small trees.
 */
module Scenarios {
  import opened Wrappers
  import opened ConfigTree
  import opened Traversal
  import opened Blacklist

  /** A string field under the path is tested directly. */
  lemma SecretValue()
    ensures Blacklisted(s => s == "abc", ["secret"], Dict([("secret", Scalar(Some("abc")))]))
    ensures !Blacklisted(s => s == "xyz", ["secret"], Dict([("secret", Scalar(Some("abc")))]))
  {
  }

  /** With no segments left, a field name alone decides. */
  lemma ForbiddenFieldPresent()
    ensures Blacklisted(s => s == "password", [], Dict([("password", Scalar(None))]))
    ensures !Blacklisted(s => s == "password", [], Dict([("user", Scalar(Some("password")))]))
  {
    var fields := [("password", Scalar(None))];
    assert fields[0].0 == "password";
  }

  /** One matching array element is enough. */
  lemma ArrayElement()
    ensures Blacklisted(s => s == "y-secret", ["list"],
                        Dict([("list", Arr([Scalar(Some("x")), Scalar(Some("y-secret"))]))]))
    ensures !Blacklisted(s => s == "y-secret", ["list"],
                         Dict([("list", Arr([Scalar(Some("x")), Scalar(Some("y"))]))]))
  {
    var items := [Scalar(Some("x")), Scalar(Some("y-secret"))];
    assert ElementHit(s => s == "y-secret", [], items[1]);
  }

  /** A non-string field at the last segment is entered with no segments
      left, so its field names are tested. */
  lemma NestedNonString()
    ensures Blacklisted(s => s == "c", ["a", "b"],
                        Dict([("a", Dict([("b", Dict([("c", Scalar(Some("v")))]))]))]))
  {
    var m: Matcher := s => s == "c";
    var b := Dict([("c", Scalar(Some("v")))]);
    var a := Dict([("b", b)]);
    var ab: seq<string> := ["a", "b"];
    assert ab[1..] == ["b"];
    assert ab[1..][1..] == [];
    assert [("c", Scalar(Some("v")))][0].0 == "c";
    assert Blacklisted(m, [], b);
    assert Blacklisted(m, ["b"], a);
  }

  /** The entry "output.secret" applies to type "output" with the single
      segment "secret". */
  lemma OutputSecretSegments()
    ensures Paths.SegmentsFor("output.secret", "output") == Some(["secret"])
  {
    assert "output" + ['.'] + Paths.Join(["secret"]) == "output.secret";
    Paths.SegmentsForDotted("output", ["secret"]);
  }

  /** The block whose field "secret" holds "abc" is blacklisted for
      type "output" by the entry "output.secret". */
  lemma SecretBlockBlacklisted(m: Matcher)
    requires forall s :: m(s) <==> s == "abc"
    ensures BlockBlacklisted(ConfigBlacklist(map["output.secret" := m]), "output",
                             ConfigBlock(Some(Dict([("secret", Scalar(Some("abc")))]))))
  {
    var bl := ConfigBlacklist(map["output.secret" := m]);
    var cfg := Dict([("secret", Scalar(Some("abc")))]);
    OutputSecretSegments();
    assert Blacklisted(m, ["secret"], cfg);
    assert EntryHits(bl.patterns["output.secret"], "output.secret", "output", cfg);
  }

  /** A block of type "output" whose field "secret" holds "abc" is
      reported once; an unreadable block beside it is not. */
  lemma DetectSecretBlock(m: Matcher)
    requires forall s :: m(s) <==> s == "abc"
    ensures Detections(ConfigBlacklist(map["output.secret" := m]),
                       [ConfigBlockGroup("output", [ConfigBlock(Some(Dict([("secret", Scalar(Some("abc")))]))),
                                                    ConfigBlock(None)])])
            == [Error(ConfigError, "output")]
  {
    var bl := ConfigBlacklist(map["output.secret" := m]);
    var hit := ConfigBlock(Some(Dict([("secret", Scalar(Some("abc")))])));
    var bad: ConfigBlock := ConfigBlock(None);
    SecretBlockBlacklisted(m);
    var blocks := [hit, bad];
    assert blocks[1..] == [bad];
    assert GroupDetections(bl, "output", [bad]) == [];
    assert GroupDetections(bl, "output", blocks) == [Error(ConfigError, "output")];
  }
}
