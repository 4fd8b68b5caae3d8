/**
 * The p2 side of the aggregator: the Nexus p2 plugin's path constants and
 * the p2 bridge toolkit (artifact and metadata repositories), whose
 * operations are foreign and therefore uninterpreted.
 */
module P2Constants {

  /** P2Constants.P2_REPOSITORY_ROOT_PATH: the hidden directory holding the aggregate. */
  const P2RepositoryRootPath := "/.p2"

  /** P2Constants.ARTIFACTS_XML, a path below the root. */
  const ArtifactsXml := "/artifacts.xml"

  /** P2Constants.CONTENT_XML, a path below the root. */
  const ContentXml := "/content.xml"
}

module P2Bridge {
  import opened Outcomes
  import opened NexusUtils

  /** org.sonatype.p2.bridge.model.InstallableArtifact, as far as handleArtifacts reads it. */
  datatype InstallableArtifact = InstallableArtifact(id: string, version: string, classifier: string)

  /**
   * Which pair of callbacks (P2MetadataProcessor, InstallableArtifactsHandler)
   * an operation passes: toolkit merge and createLink, or toolkit remove and
   * deleteLink.
   */
  datatype Op = Merge | Remove

  /**
   * The bridge operations, each on the descriptor file(s) it reads.  A
   * result of None stands for the call throwing.
   *   artifactsMerge / artifactsRemove (source artifacts.xml, destination artifacts.xml)
   *     give the new destination artifacts.xml;
   *   installableArtifacts (artifacts.xml) lists the artifacts it describes;
   *   artifactsWrite (repository id) gives the artifacts.xml of an empty repository;
   *   metadataMerge / metadataRemove and metadataWrite likewise for content.xml.
   */
  datatype Toolkit = Toolkit(
    artifactsMerge: (Content, Content) -> Option<Content>,
    artifactsRemove: (Content, Content) -> Option<Content>,
    installableArtifacts: Content -> Option<seq<InstallableArtifact>>,
    artifactsWrite: string -> Option<Content>,
    metadataMerge: (Content, Content) -> Option<Content>,
    metadataRemove: (Content, Content) -> Option<Content>,
    metadataWrite: string -> Option<Content>)

  /** The P2MetadataProcessor an artifacts operation passes. */
  function ArtifactsProcessor(tk: Toolkit, op: Op): (Content, Content) -> Option<Content> {
    match op
    case Merge => tk.artifactsMerge
    case Remove => tk.artifactsRemove
  }

  /** The P2MetadataProcessor a metadata operation passes. */
  function MetadataProcessor(tk: Toolkit, op: Op): (Content, Content) -> Option<Content> {
    match op
    case Merge => tk.metadataMerge
    case Remove => tk.metadataRemove
  }
}
